/**
 * The two conversions between `int` and text that the trigger uses:
 * `Int32.TryParse(string, out int)` with its default number style
 * (leading and trailing white space, an optional leading sign, decimal
 * digits, a result that must fit in 32 bits) and `Int32.ToString()` as it
 * is used inside string interpolation, both in the invariant culture.
 */
module Int32Text {
  import opened Wrappers

  const MIN_INT32: int := -0x8000_0000
  const MAX_INT32: int := 0x7fff_ffff

  /** A C# `int`. */
  newtype int32 = x: int | -0x8000_0000 <= x < 0x8000_0000

  /** The white space `NumberStyles.AllowLeadingWhite` and `AllowTrailingWhite` skip: U+0009 to U+000D and U+0020. */
  predicate IsWhite(c: char)
  {
    c == ' ' || '\t' <= c <= '\r'
  }

  predicate IsDigit(c: char)
  {
    '0' <= c <= '9'
  }

  predicate AllDigits(s: string)
  {
    forall i :: 0 <= i < |s| ==> IsDigit(s[i])
  }

  predicate AllWhite(s: string)
  {
    forall i :: 0 <= i < |s| ==> IsWhite(s[i])
  }

  function TrimStart(s: string): (t: string)
    ensures t == [] || !IsWhite(t[0])
  {
    if |s| > 0 && IsWhite(s[0]) then TrimStart(s[1..]) else s
  }

  function TrimEnd(s: string): (t: string)
    ensures t == [] || !IsWhite(t[|t| - 1])
  {
    if |s| > 0 && IsWhite(s[|s| - 1]) then TrimEnd(s[..|s| - 1]) else s
  }

  function DigitValue(c: char): nat
    requires IsDigit(c)
  {
    (c as int) - ('0' as int)
  }

  /** The value of a string of decimal digits, most significant first. */
  function DigitsValue(d: string): nat
    requires AllDigits(d)
  {
    if |d| == 0 then 0 else DigitsValue(d[..|d| - 1]) * 10 + DigitValue(d[|d| - 1])
  }

  /**
   * `Int32.TryParse(s, out v)`: `Some(v)` when it returns true. White space
   * may surround the number, a single `+` or `-` may precede the digits,
   * and the value must fit in 32 bits.
   */
  function ParseInt32(s: string): Option<int32>
  {
    ParseSigned(TrimEnd(TrimStart(s)))
  }

  /** The number proper, once the white space around it is gone. */
  function ParseSigned(t: string): Option<int32>
  {
    var signed := |t| > 0 && (t[0] == '-' || t[0] == '+');
    var digits := if signed then t[1..] else t;
    if |digits| == 0 || !AllDigits(digits) then None
    else
      var magnitude: int := DigitsValue(digits);
      var v := if signed && t[0] == '-' then -magnitude else magnitude;
      if MIN_INT32 <= v <= MAX_INT32 then Some(v as int32) else None
  }

  function DigitChar(d: nat): char
    requires d < 10
  {
    ('0' as int + d) as char
  }

  /** The shortest decimal digits of `n`. */
  function NatToString(n: nat): string
  {
    if n < 10 then [DigitChar(n)] else NatToString(n / 10) + [DigitChar(n % 10)]
  }

  /** `n.ToString()`: a `-` for negative values, then the shortest decimal digits. */
  function Int32ToString(n: int32): string
  {
    if n < 0 then "-" + NatToString(-(n as int)) else NatToString(n as nat)
  }

  /** The digits of a number: at least one, and no leading zero. */
  lemma {:induction false} NatToStringShape(n: nat)
    ensures var s := NatToString(n); |s| >= 1 && AllDigits(s) && (|s| > 1 ==> s[0] != '0')
  {
    if n >= 10 {
      NatToStringShape(n / 10);
      var s := NatToString(n);
      assert s[..|s| - 1] == NatToString(n / 10);
    }
  }

  /** A formatted `int`: an optional `-`, then digits only. */
  lemma Int32ToStringShape(n: int32)
    ensures var s := Int32ToString(n); |s| >= 1 && AllDigits(s[1..]) && (IsDigit(s[0]) || s[0] == '-')
  {
    var s := Int32ToString(n);
    if n < 0 {
      NatToStringShape(-(n as int));
      assert s[1..] == NatToString(-(n as int));
    } else {
      NatToStringShape(n as nat);
      assert forall j :: 1 <= j < |s| ==> s[1..][j - 1] == s[j];
    }
  }

  /** Digits written out for a number read back to that number. */
  lemma {:induction false} DigitsOfNat(n: nat)
    ensures AllDigits(NatToString(n)) && DigitsValue(NatToString(n)) == n
  {
    NatToStringShape(n);
    if n >= 10 {
      var s := NatToString(n);
      assert s[..|s| - 1] == NatToString(n / 10);
      DigitsOfNat(n / 10);
    }
  }

  lemma TrimStartWhite(w: string, x: string)
    requires AllWhite(w)
    requires |x| > 0 && !IsWhite(x[0])
    ensures TrimStart(w + x) == x
  {
    if |w| > 0 {
      assert (w + x)[1..] == w[1..] + x;
      TrimStartWhite(w[1..], x);
    }
  }

  lemma TrimEndWhite(x: string, w: string)
    requires AllWhite(w)
    requires |x| > 0 && !IsWhite(x[|x| - 1])
    ensures TrimEnd(x + w) == x
  {
    if |w| > 0 {
      assert (x + w)[..|x + w| - 1] == x + w[..|w| - 1];
      TrimEndWhite(x, w[..|w| - 1]);
    }
  }

  /**
   * What `ToString` writes, `TryParse` reads back, also with white space
   * around it.
   */
  lemma ParseFormatRoundTrip(n: int32, before: string, after: string)
    requires AllWhite(before) && AllWhite(after)
    ensures ParseInt32(before + Int32ToString(n) + after) == Some(n)
  {
    var s := Int32ToString(n);
    Int32ToStringShape(n);
    TrimStartWhite(before, s + after);
    assert before + s + after == before + (s + after);
    TrimEndWhite(s, after);
    ParseSignedFormat(n);
  }

  lemma ParseSignedFormat(n: int32)
    ensures ParseSigned(Int32ToString(n)) == Some(n)
  {
    if n < 0 {
      var d := NatToString(-(n as int));
      DigitsOfNat(-(n as int));
      NatToStringShape(-(n as int));
      ParseNegative(d);
    } else {
      var d := NatToString(n as nat);
      DigitsOfNat(n as nat);
      NatToStringShape(n as nat);
      ParseUnsigned(d);
    }
  }

  /** Digits without a sign read as their value, when it fits. */
  lemma ParseUnsigned(d: string)
    requires |d| >= 1 && AllDigits(d)
    ensures ParseSigned(d) == if DigitsValue(d) <= MAX_INT32 then Some(DigitsValue(d) as int32) else None
  {
    assert IsDigit(d[0]);
  }

  /** Digits after a `-` read as their value negated, when it fits. */
  lemma ParseNegative(d: string)
    requires |d| >= 1 && AllDigits(d)
    ensures ParseSigned("-" + d) == if DigitsValue(d) <= -MIN_INT32 then Some((-(DigitsValue(d) as int)) as int32) else None
  {
    assert ("-" + d)[1..] == d;
  }

  /** Any text that `ToString` could have written parses back to its number. */
  lemma ParsesAs(s: string, n: int32)
    requires Int32ToString(n) == s
    ensures ParseInt32(s) == Some(n)
  {
    ParseFormatRoundTrip(n, "", "");
    assert "" + s + "" == s;
  }

  /** Numbers outside the 32-bit range are rejected, whatever their sign. */
  lemma ParseRejectsOverflow(n: nat)
    ensures n > MAX_INT32 ==> ParseInt32(NatToString(n)) == None
    ensures n > -MIN_INT32 ==> ParseInt32("-" + NatToString(n)) == None
  {
    DigitsOfNat(n);
    NatToStringShape(n);
    var s := NatToString(n);
    assert TrimEnd(TrimStart(s)) == s;
    assert TrimEnd(TrimStart("-" + s)) == "-" + s;
    assert ("-" + s)[1..] == s;
  }

  /** Signs, zero and surrounding white space are all accepted. */
  lemma ParseAcceptsSignsAndWhite()
    ensures ParseInt32("0") == Some(0)
    ensures ParseInt32("-5") == Some(-5)
    ensures ParseInt32(" +512 ") == Some(512)
  {
    ParsesMinusFive();
    ParsesPaddedPlus();
    assert TrimEnd(TrimStart("0")) == "0";
  }

  lemma ParsesMinusFive()
    ensures ParseInt32("-5") == Some(-5)
  {
    assert TrimEnd(TrimStart("-5")) == "-5";
    assert "-5"[1..] == "5";
  }

  lemma ParsesPaddedPlus()
    ensures ParseInt32(" +512 ") == Some(512)
  {
    assert TrimStart(" +512 ") == "+512 ";
    assert TrimEnd("+512 ") == "+512";
    assert "+512"[1..] == "512";
    assert DigitsValue("512") == 512 by {
      assert "512"[..2] == "51";
      assert "51"[..1] == "5";
    }
  }

  /** No digits, a space after the sign, or a letter: rejected. */
  lemma ParseRejectsMalformed()
    ensures ParseInt32("") == None
    ensures ParseInt32("- 5") == None
    ensures ParseInt32("abc") == None
  {
    assert TrimEnd(TrimStart("- 5")) == "- 5";
    assert "- 5"[1..] == " 5";
    assert !IsDigit(" 5"[0]);
    assert TrimEnd(TrimStart("abc")) == "abc";
    assert !IsDigit("abc"[0]);
  }
}
