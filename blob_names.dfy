/**
 * The names the trigger reads and writes: `Path.GetExtension` and
 * `Path.GetFileNameWithoutExtension` on the blob name, the `Guid.TryParse`
 * test on the stem, and the path each resized image is written to.
 */
module BlobNames {
  import opened Text
  import opened Int32Text

  /** The container every output is written under (`UploadFolderName`). */
  const UPLOAD_FOLDER_NAME: string := "images"

  /** The directory separator; only `/` is one in this model. */
  const SEPARATOR: char := '/'

  /** `Path.GetFileName`: everything after the last directory separator. */
  function GetFileName(path: string): (f: string)
    ensures SEPARATOR !in f
  {
    var sep := LastIndexOf(path, SEPARATOR);
    LastIndexOfSuffix(path, sep + 1, SEPARATOR);
    path[sep + 1..]
  }

  /**
   * `Path.GetExtension`: from the last `.` of the file name on, dot
   * included, or the empty string when there is no dot or the dot is the
   * last character.
   */
  function GetExtension(path: string): string
  {
    var dot, sep := LastIndexOf(path, '.'), LastIndexOf(path, SEPARATOR);
    if dot > sep && dot != |path| - 1 then path[dot..] else ""
  }

  /** `Path.GetFileNameWithoutExtension`: the file name cut at its last `.`. */
  function GetFileNameWithoutExtension(path: string): string
  {
    var f := GetFileName(path);
    var dot := LastIndexOf(f, '.');
    if dot < 0 then f else f[..dot]
  }

  /** A non-empty extension is one `.` followed by characters that are neither dots nor separators. */
  lemma ExtensionShape(path: string)
    ensures var ext := GetExtension(path);
      ext == "" || (|ext| >= 2 && ext[0] == '.' && '.' !in ext[1..] && SEPARATOR !in ext)
  {
    var dot, sep := LastIndexOf(path, '.'), LastIndexOf(path, SEPARATOR);
    if dot > sep && dot != |path| - 1 {
      var ext := path[dot..];
      assert forall j :: 0 <= j < |ext| ==> ext[j] == path[dot + j];
    }
  }

  /**
   * The stem and the extension make up the whole file name again, except
   * for a name ending in a bare `.`, whose dot belongs to neither.
   */
  lemma FileNameParts(path: string)
    ensures var f, stem, ext := GetFileName(path), GetFileNameWithoutExtension(path), GetExtension(path);
      if ext != "" then f == stem + ext
      else f == stem || (f == stem + "." && f[|f| - 1] == '.')
  {
    var sep := LastIndexOf(path, SEPARATOR);
    var dot := LastIndexOf(path, '.');
    var f := GetFileName(path);
    assert f == path[sep + 1..];
    LastIndexOfSuffix(path, sep + 1, '.');
    var fdot := LastIndexOf(f, '.');
    if dot > sep {
      assert fdot == dot - sep - 1;
      TakeDrop(f, fdot);
      assert GetFileNameWithoutExtension(path) == f[..fdot];
      if dot != |path| - 1 {
        assert GetExtension(path) == path[dot..] == f[fdot..];
      } else {
        assert GetExtension(path) == "";
        assert f[fdot..] == ".";
      }
    } else {
      assert fdot < 0;
      assert GetFileNameWithoutExtension(path) == f;
      assert GetExtension(path) == "";
    }
  }

  predicate IsHex(c: char)
  {
    '0' <= c <= '9' || 'a' <= c <= 'f' || 'A' <= c <= 'F'
  }

  /** The "D" form: 8-4-4-4-12 hex digits, hyphens in between. */
  predicate IsHyphenatedGuid(s: string)
  {
    && |s| == 36
    && s[8] == '-' && s[13] == '-' && s[18] == '-' && s[23] == '-'
    && forall i :: 0 <= i < 36 && i != 8 && i != 13 && i != 18 && i != 23 ==> IsHex(s[i])
  }

  /** The "N" form: 32 hex digits. */
  predicate IsDigitsGuid(s: string)
  {
    |s| == 32 && forall i :: 0 <= i < 32 ==> IsHex(s[i])
  }

  /**
   * The forms of `Guid.TryParse` this model accepts: "D", "N", and "D"
   * inside braces ("B") or parentheses ("P"), in either letter case.
   */
  predicate IsGuid(s: string)
  {
    || IsHyphenatedGuid(s)
    || IsDigitsGuid(s)
    || (|s| == 38 && s[0] == '{' && s[37] == '}' && IsHyphenatedGuid(s[1..37]))
    || (|s| == 38 && s[0] == '(' && s[37] == ')' && IsHyphenatedGuid(s[1..37]))
  }

  /** No GUID text holds a `.` or a directory separator. */
  lemma GuidHasNoDot(s: string)
    requires IsGuid(s)
    ensures '.' !in s && SEPARATOR !in s
  {
    if !IsHyphenatedGuid(s) && !IsDigitsGuid(s) {
      var inner := s[1..37];
      assert forall j :: 1 <= j < 37 ==> s[j] == inner[j - 1];
    }
  }

  /**
   * The blob a resized image is written to. The extension already starts
   * with its own `.`, and a second `.` is put before it, so a `.jpg` source
   * gives `images/{subfolder}/{stem}.{width}-{height}..jpg`.
   */
  function DestinationPath(subfolder: string, stem: string, width: int32, height: int32, extension: string): string
  {
    Directory(subfolder) + DerivedFileName(stem, width, height, extension)
  }

  /** `images/{subfolder}/`. */
  function Directory(subfolder: string): string
  {
    UPLOAD_FOLDER_NAME + "/" + subfolder + "/"
  }

  /** `{stem}.{width}-{height}.{extension}`, where the extension brings its own dot. */
  function DerivedFileName(stem: string, width: int32, height: int32, extension: string): string
  {
    (stem + ".") + SizeTag(width, height) + ("." + extension)
  }

  /** The `{width}-{height}` part of a destination path. */
  function SizeTag(width: int32, height: int32): string
  {
    Int32ToString(width) + "-" + Int32ToString(height)
  }

  /** A formatted number has no `-` after its first character. */
  lemma NoHyphenAfterSign(n: int32, i: int)
    requires 1 <= i < |Int32ToString(n)|
    ensures Int32ToString(n)[i] != '-'
  {
    var a := Int32ToString(n);
    Int32ToStringShape(n);
    assert a[1..][i - 1] == a[i];
  }

  /** The `{width}-{height}` part determines both numbers. */
  lemma {:induction false} SizePartInjective(w1: int32, h1: int32, w2: int32, h2: int32)
    requires SizeTag(w1, h1) == SizeTag(w2, h2)
    ensures w1 == w2 && h1 == h2
  {
    var a, b, c, d := Int32ToString(w1), Int32ToString(h1), Int32ToString(w2), Int32ToString(h2);
    var s := a + "-" + b;
    assert s == c + "-" + d;
    if |a| < |c| {
      assert s[|a|] == '-';
      assert s[|a|] == c[|a|];
      NoHyphenAfterSign(w2, |a|);
    }
    if |c| < |a| {
      assert s[|c|] == '-';
      assert s[|c|] == a[|c|];
      NoHyphenAfterSign(w1, |c|);
    }
    assert a == s[..|a|] == c;
    assert b == s[|a| + 1..] == d;
    ParseSignedFormat(w1);
    ParseSignedFormat(w2);
    ParseSignedFormat(h1);
    ParseSignedFormat(h2);
  }

  /**
   * Two resolutions of one source blob are written to the same path only
   * when they are the same resolution, so no resized image overwrites
   * another.
   */
  lemma PathInjective(subfolder: string, stem: string, extension: string, w1: int32, h1: int32, w2: int32, h2: int32)
    requires DestinationPath(subfolder, stem, w1, h1, extension) == DestinationPath(subfolder, stem, w2, h2, extension)
    ensures w1 == w2 && h1 == h2
  {
    CancelPrefix(Directory(subfolder), DerivedFileName(stem, w1, h1, extension), DerivedFileName(stem, w2, h2, extension));
    CancelEnds(stem + ".", SizeTag(w1, h1), SizeTag(w2, h2), "." + extension);
    SizePartInjective(w1, h1, w2, h2);
  }

  /** A size tag is digits and hyphens only. */
  lemma SizeTagHasNoSeparator(width: int32, height: int32)
    ensures SEPARATOR !in SizeTag(width, height) && '.' !in SizeTag(width, height)
  {
    var a, b := Int32ToString(width), Int32ToString(height);
    Int32ToStringShape(width);
    Int32ToStringShape(height);
    assert forall j :: 1 <= j < |a| ==> a[j] == a[1..][j - 1];
    assert forall j :: 1 <= j < |b| ==> b[j] == b[1..][j - 1];
  }

  /** The file name of a path whose last separator ends `dir`. */
  lemma FileNameAfterDirectory(dir: string, f: string)
    requires |dir| > 0 && dir[|dir| - 1] == SEPARATOR
    requires SEPARATOR !in f
    ensures GetFileName(dir + f) == f
  {
    var path := dir + f;
    assert forall j :: |dir| <= j < |path| ==> path[j] == f[j - |dir|];
    LastIndexOfUnique(path, SEPARATOR, |dir| - 1);
  }

  /** The stem of `{dir}{stem}.{rest}` runs past `stem` and its dot. */
  lemma StemKeepsDot(dir: string, stem: string, rest: string)
    requires |dir| > 0 && dir[|dir| - 1] == SEPARATOR
    requires SEPARATOR !in stem && SEPARATOR !in rest
    requires |rest| > 0 && rest[0] == '.' && '.' in rest[1..]
    ensures var g := GetFileNameWithoutExtension(dir + (stem + rest)); |g| > |stem| && g[|stem|] == '.'
  {
    var f := stem + rest;
    assert SEPARATOR !in f;
    FileNameAfterDirectory(dir, f);
    var i :| 0 <= i < |rest[1..]| && rest[1..][i] == '.';
    assert f[|stem| + 1 + i] == '.';
  }

  /** What follows the stem in a derived file name: a dot, the size tag, a dot, the extension. */
  function AfterStem(width: int32, height: int32, extension: string): string
  {
    "." + SizeTag(width, height) + "." + extension
  }

  lemma AfterStemShape(width: int32, height: int32, extension: string)
    requires SEPARATOR !in extension
    ensures var rest := AfterStem(width, height, extension);
      |rest| > 0 && rest[0] == '.' && '.' in rest[1..] && SEPARATOR !in rest
  {
    SizeTagHasNoSeparator(width, height);
    var rest := AfterStem(width, height, extension);
    assert rest[1..] == SizeTag(width, height) + "." + extension;
    assert rest[1..][|SizeTag(width, height)|] == '.';
  }

  lemma DestinationPathAfterStem(subfolder: string, stem: string, width: int32, height: int32, extension: string)
    ensures DestinationPath(subfolder, stem, width, height, extension)
      == Directory(subfolder) + (stem + AfterStem(width, height, extension))
  {
  }

  /**
   * A resized image's own stem is never a GUID: were a derived blob ever
   * handed to the trigger, it would be skipped rather than resized again.
   */
  lemma DerivedNameNotReprocessed(subfolder: string, stem: string, width: int32, height: int32, extension: string)
    requires IsGuid(stem)
    requires SEPARATOR !in extension
    ensures !IsGuid(GetFileNameWithoutExtension(DestinationPath(subfolder, stem, width, height, extension)))
  {
    var dir, rest := Directory(subfolder), AfterStem(width, height, extension);
    GuidHasNoDot(stem);
    AfterStemShape(width, height, extension);
    DestinationPathAfterStem(subfolder, stem, width, height, extension);
    StemKeepsDot(dir, stem, rest);
    DottedNotGuid(GetFileNameWithoutExtension(dir + (stem + rest)), |stem|);
  }

  lemma DottedNotGuid(s: string, i: nat)
    requires i < |s| && s[i] == '.'
    ensures !IsGuid(s)
  {
    if IsGuid(s) {
      GuidHasNoDot(s);
    }
  }
}
