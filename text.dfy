/**
 * Character search and `String.Split(char)` on strings, as the .NET base
 * library defines them for a single separator character.
 */
module Text {

  /** `String.IndexOf(char)`: the first position of `c` in `s`, or -1. */
  function IndexOf(s: string, c: char): (r: int)
    ensures -1 <= r < |s|
    ensures r >= 0 ==> s[r] == c
  {
    if |s| == 0 then -1
    else if s[0] == c then 0
    else
      var k := IndexOf(s[1..], c);
      if k < 0 then -1 else k + 1
  }

  /** No `c` comes before the position `IndexOf` finds, and none at all when it finds none. */
  lemma {:induction false} IndexOfFirst(s: string, c: char)
    ensures forall j :: 0 <= j < |s| && (IndexOf(s, c) < 0 || j < IndexOf(s, c)) ==> s[j] != c
  {
    if |s| > 0 && s[0] != c {
      IndexOfFirst(s[1..], c);
      assert forall j :: 1 <= j < |s| ==> s[j] == s[1..][j - 1];
    }
  }

  /** `String.LastIndexOf(char)`: the last position of `c` in `s`, or -1. */
  function LastIndexOf(s: string, c: char): (r: int)
    ensures -1 <= r < |s|
    ensures r >= 0 ==> s[r] == c
    ensures forall j :: r < j < |s| ==> s[j] != c
  {
    if |s| == 0 then -1
    else if s[|s| - 1] == c then |s| - 1
    else LastIndexOf(s[..|s| - 1], c)
  }

  /** The last occurrence is the one position with `c` and none after it. */
  lemma LastIndexOfUnique(s: string, c: char, r: int)
    requires -1 <= r < |s|
    requires r >= 0 ==> s[r] == c
    requires forall j :: r < j < |s| ==> s[j] != c
    ensures LastIndexOf(s, c) == r
  {
  }

  /** Searching a suffix finds the same occurrence, shifted, or none. */
  lemma LastIndexOfSuffix(s: string, k: nat, c: char)
    requires k <= |s|
    ensures var r := LastIndexOf(s, c);
      LastIndexOf(s[k..], c) == if r >= k then r - k else -1
  {
    var r := LastIndexOf(s, c);
    var t := s[k..];
    assert forall j :: 0 <= j < |t| ==> t[j] == s[k + j];
    LastIndexOfUnique(t, c, if r >= k then r - k else -1);
  }

  /** The pieces of `parts` glued back together with `sep` between neighbours. */
  function Join(parts: seq<string>, sep: char): string
  {
    if |parts| == 0 then ""
    else if |parts| == 1 then parts[0]
    else parts[0] + [sep] + Join(parts[1..], sep)
  }

  /**
   * `String.Split(char)`: the pieces of `s` between separators, empty
   * pieces included; there is always at least one.
   */
  function Split(s: string, sep: char): (parts: seq<string>)
    ensures |parts| >= 1
    decreases |s|
  {
    var i := IndexOf(s, sep);
    if i < 0 then [s]
    else [s[..i]] + Split(s[i + 1..], sep)
  }

  /**
   * The pieces are separator-free, and joining them with `sep` gives `s`
   * back.
   */
  lemma SplitPieces(s: string, sep: char)
    ensures forall i :: 0 <= i < |Split(s, sep)| ==> sep !in Split(s, sep)[i]
    ensures Join(Split(s, sep), sep) == s
  {
    SplitSeparatorFree(s, sep);
    SplitJoinsBack(s, sep);
  }

  lemma SplitSeparatorFree(s: string, sep: char)
    ensures forall i :: 0 <= i < |Split(s, sep)| ==> sep !in Split(s, sep)[i]
  {
    forall k | 0 <= k < |Split(s, sep)| ensures sep !in Split(s, sep)[k] {
      SplitPieceSeparatorFree(s, sep, k);
    }
  }

  /** Piece `k` of a split holds no separator. */
  lemma {:induction false} SplitPieceSeparatorFree(s: string, sep: char, k: nat)
    requires k < |Split(s, sep)|
    ensures sep !in Split(s, sep)[k]
    decreases |s|
  {
    if k == 0 {
      SplitHeadSeparatorFree(s, sep);
    } else {
      var i := IndexOf(s, sep);
      var rest := s[i + 1..];
      assert Split(s, sep)[k] == Split(rest, sep)[k - 1];
      SplitPieceSeparatorFree(rest, sep, k - 1);
    }
  }

  /** The first piece runs up to the first separator, or is the whole string. */
  lemma SplitHeadSeparatorFree(s: string, sep: char)
    ensures sep !in Split(s, sep)[0]
  {
    IndexOfFirst(s, sep);
    var i := IndexOf(s, sep);
    if i >= 0 {
      var head := s[..i];
      assert forall j :: 0 <= j < |head| ==> head[j] == s[j];
    }
  }

  lemma {:induction false} SplitJoinsBack(s: string, sep: char)
    ensures Join(Split(s, sep), sep) == s
    decreases |s|
  {
    var i := IndexOf(s, sep);
    if i >= 0 {
      var head, rest := s[..i], s[i + 1..];
      var tail := Split(rest, sep);
      assert Split(s, sep) == [head] + tail;
      calc {
        Join(Split(s, sep), sep);
        Join([head] + tail, sep);
        { JoinCons(head, tail, sep); }
        head + [sep] + Join(tail, sep);
        { SplitJoinsBack(rest, sep); }
        head + [sep] + rest;
        { SplitAround(s, i); }
        s;
      }
    }
  }

  lemma JoinCons(head: string, tail: seq<string>, sep: char)
    requires |tail| >= 1
    ensures Join([head] + tail, sep) == head + [sep] + Join(tail, sep)
  {
    assert ([head] + tail)[1..] == tail;
  }

  lemma SplitAround(s: string, i: int)
    requires 0 <= i < |s|
    ensures s == s[..i] + [s[i]] + s[i + 1..]
  {
  }

  /** Cutting a string at `i` and putting the halves back together gives the string again. */
  lemma TakeDrop(s: string, i: nat)
    requires i <= |s|
    ensures s == s[..i] + s[i..]
  {
  }

  /** Splitting is the inverse of joining separator-free pieces. */
  lemma {:induction false} SplitJoin(parts: seq<string>, sep: char)
    requires |parts| >= 1
    requires forall i :: 0 <= i < |parts| ==> sep !in parts[i]
    ensures Split(Join(parts, sep), sep) == parts
  {
    if |parts| == 1 {
      assert Join(parts, sep) == parts[0];
    } else {
      var head, tail := parts[0], Join(parts[1..], sep);
      var s := head + [sep] + tail;
      assert Join(parts, sep) == s;
      var k := IndexOf(s, sep);
      IndexOfFirst(s, sep);
      assert s[|head|] == sep;
      assert forall j :: 0 <= j < |head| ==> s[j] == head[j];
      assert k == |head|;
      assert s[..k] == head;
      assert s[k + 1..] == tail;
      SplitJoin(parts[1..], sep);
    }
  }

  /** A string splits into a single piece exactly when it holds no separator. */
  lemma SplitSingle(s: string, sep: char)
    ensures |Split(s, sep)| == 1 <==> sep !in s
  {
    if sep in s {
      IndexOfFirst(s, sep);
      var i := IndexOf(s, sep);
      assert i >= 0;
    }
  }

  /** Joining one more piece onto the end. */
  lemma {:induction false} JoinSnoc(parts: seq<string>, last: string, sep: char)
    requires |parts| >= 1
    ensures Join(parts + [last], sep) == Join(parts, sep) + [sep] + last
  {
    if |parts| == 1 {
      assert (parts + [last])[1..] == [last];
    } else {
      assert (parts + [last])[1..] == parts[1..] + [last];
      JoinSnoc(parts[1..], last, sep);
    }
  }

  /** A trailing separator adds one empty piece at the end. */
  lemma SplitTrailingSeparator(s: string, sep: char)
    ensures Split(s + [sep], sep) == Split(s, sep) + [""]
  {
    var parts := Split(s, sep);
    SplitPieces(s, sep);
    JoinSnoc(parts, "", sep);
    assert Join(parts + [""], sep) == s + [sep];
    SplitJoin(parts + [""], sep);
  }

  /** Equal strings with equal beginnings have equal ends. */
  lemma CancelPrefix(prefix: string, x: string, y: string)
    requires prefix + x == prefix + y
    ensures x == y
  {
    assert x == (prefix + x)[|prefix|..];
    assert y == (prefix + y)[|prefix|..];
  }

  /** Equal strings with equal ends have equal middles. */
  lemma CancelEnds(prefix: string, x: string, y: string, suffix: string)
    requires prefix + x + suffix == prefix + y + suffix
    ensures x == y
  {
    var s, t := prefix + x + suffix, prefix + y + suffix;
    assert x == s[|prefix|..|s| - |suffix|];
    assert y == t[|prefix|..|t| - |suffix|];
  }
}
