/**
 * What `TryGetResolutionsFromConfig` makes of the `ResizeResolutions`
 * setting, `W,H;W,H;...`, stated entry by entry in the order the loop
 * visits them.
 */
module ResolutionConfig {
  import opened Wrappers
  import opened Text
  import opened Int32Text

  /** One target box, `Tuple<int, int>(width, height)`. */
  datatype Resolution = Resolution(width: int32, height: int32)

  /** The list the static field starts with. */
  const DEFAULT_RESOLUTIONS: seq<Resolution> := [Resolution(512, 384)]

  /**
   * What happens to one `;`-separated entry: its pair is added, it is
   * skipped because one of its first two parts is not an `int`, or it has
   * no second part and reading `splittedResolution[1]` throws.
   */
  datatype EntryParse = Accepted(resolution: Resolution) | Dropped | MissingHeight

  function ParseEntry(entry: string): EntryParse
  {
    var parts := Split(entry, ',');
    if |parts| < 2 then MissingHeight
    else match (ParseInt32(parts[0]), ParseInt32(parts[1]))
      case (Some(w), Some(h)) => Accepted(Resolution(w, h))
      case _ => Dropped
  }

  /** An entry throws exactly when it holds no comma. */
  lemma MissingHeightIffNoComma(entry: string)
    ensures ParseEntry(entry).MissingHeight? <==> ',' !in entry
  {
    SplitSingle(entry, ',');
  }

  /** An entry with at least two parts is accepted exactly when its first two parts parse. */
  lemma ParseEntryOfParts(entry: string, parts: seq<string>)
    requires parts == Split(entry, ',') && |parts| >= 2
    ensures ParseEntry(entry).MissingHeight? == false
    ensures ParseEntry(entry).Accepted? <==> ParseInt32(parts[0]).Some? && ParseInt32(parts[1]).Some?
    ensures ParseEntry(entry).Accepted? ==>
      ParseEntry(entry).resolution == Resolution(ParseInt32(parts[0]).value, ParseInt32(parts[1]).value)
  {
  }

  /** An entry `w,h` with two comma-free parts is accepted exactly when both parts parse. */
  lemma ParseEntryPair(w: string, h: string)
    requires ',' !in w && ',' !in h
    ensures ParseEntry(w + "," + h)
      == if ParseInt32(w).Some? && ParseInt32(h).Some?
         then Accepted(Resolution(ParseInt32(w).value, ParseInt32(h).value))
         else Dropped
  {
    assert Join([w, h], ',') == w + "," + h;
    SplitJoin([w, h], ',');
  }

  /** Parts after the second one play no role. */
  lemma ExtraPartsIgnored(w: string, h: string, rest: string)
    requires ',' !in w && ',' !in h
    ensures ParseEntry(w + "," + h + "," + rest) == ParseEntry(w + "," + h)
  {
    var tail := Split(rest, ',');
    SplitPieces(rest, ',');
    var parts := [w, h] + tail;
    assert parts[1..] == [h] + tail;
    assert ([h] + tail)[1..] == tail;
    assert Join(parts, ',') == w + [','] + (h + [','] + rest);
    assert w + "," + h + "," + rest == w + [','] + (h + [','] + rest);
    SplitJoin(parts, ',');
    assert Join([w, h], ',') == w + "," + h;
    SplitJoin([w, h], ',');
  }

  /** What the loop does with each entry, in order. */
  function ParseAll(entries: seq<string>): (outcomes: seq<EntryParse>)
    ensures |outcomes| == |entries|
  {
    seq(|entries|, i requires 0 <= i < |entries| => ParseEntry(entries[i]))
  }

  /** The outcome of the whole loop: the list it built and whether it threw. */
  datatype ConfigParse = ConfigParse(resolutions: seq<Resolution>, failed: bool)

  /**
   * The loop over the entries' outcomes: accepted pairs are appended in
   * order, and the first entry without a comma stops the loop with the
   * list as it stands.
   */
  function Run(outcomes: seq<EntryParse>): ConfigParse
  {
    if |outcomes| == 0 then ConfigParse([], false)
    else
      var before := Run(outcomes[..|outcomes| - 1]);
      if before.failed then before
      else match outcomes[|outcomes| - 1]
        case Accepted(r) => ConfigParse(before.resolutions + [r], false)
        case Dropped => before
        case MissingHeight => ConfigParse(before.resolutions, true)
  }

  /** The pairs of all accepted entries, in their original order. */
  function AcceptedOf(outcomes: seq<EntryParse>): seq<Resolution>
  {
    if |outcomes| == 0 then []
    else (if outcomes[0].Accepted? then [outcomes[0].resolution] else []) + AcceptedOf(outcomes[1..])
  }

  /** The number of entries before the first one that throws. */
  function BeforeFirstMissing(outcomes: seq<EntryParse>): (n: nat)
    ensures n <= |outcomes|
    ensures forall i :: 0 <= i < n ==> !outcomes[i].MissingHeight?
    ensures n < |outcomes| ==> outcomes[n].MissingHeight?
  {
    if |outcomes| == 0 || outcomes[0].MissingHeight? then 0
    else 1 + BeforeFirstMissing(outcomes[1..])
  }

  /** One more entry through the loop. */
  lemma RunStep(outcomes: seq<EntryParse>, i: nat)
    requires i < |outcomes|
    ensures var before := Run(outcomes[..i]);
      Run(outcomes[..i + 1])
        == if before.failed then before
           else match outcomes[i]
             case Accepted(r) => ConfigParse(before.resolutions + [r], false)
             case Dropped => before
             case MissingHeight => ConfigParse(before.resolutions, true)
  {
    assert outcomes[..i + 1][..i] == outcomes[..i];
  }

  /** An accepted entry appends its pair. */
  lemma RunStepAccepted(outcomes: seq<EntryParse>, i: nat, r: Resolution)
    requires i < |outcomes| && !Run(outcomes[..i]).failed && outcomes[i] == Accepted(r)
    ensures Run(outcomes[..i + 1]) == ConfigParse(Run(outcomes[..i]).resolutions + [r], false)
  {
    RunStep(outcomes, i);
  }

  /** A skipped entry changes nothing. */
  lemma RunStepDropped(outcomes: seq<EntryParse>, i: nat)
    requires i < |outcomes| && !Run(outcomes[..i]).failed && outcomes[i] == Dropped
    ensures Run(outcomes[..i + 1]) == Run(outcomes[..i])
  {
    RunStep(outcomes, i);
  }

  /** Once the loop has thrown, later entries change nothing. */
  lemma {:induction false} FailureIsFinal(outcomes: seq<EntryParse>, k: nat)
    requires k <= |outcomes| && Run(outcomes[..k]).failed
    ensures Run(outcomes) == Run(outcomes[..k])
  {
    if k < |outcomes| {
      var init := outcomes[..|outcomes| - 1];
      assert init[..k] == outcomes[..k];
      FailureIsFinal(init, k);
    } else {
      assert outcomes[..k] == outcomes;
    }
  }

  lemma {:induction false} AcceptedOfSnoc(outcomes: seq<EntryParse>, last: EntryParse)
    ensures AcceptedOf(outcomes + [last])
      == AcceptedOf(outcomes) + (if last.Accepted? then [last.resolution] else [])
  {
    if |outcomes| > 0 {
      assert (outcomes + [last])[1..] == outcomes[1..] + [last];
      AcceptedOfSnoc(outcomes[1..], last);
    }
  }

  /** `BeforeFirstMissing` is the one count its contract describes. */
  lemma BeforeFirstMissingUnique(outcomes: seq<EntryParse>, k: nat)
    requires k <= |outcomes|
    requires forall i :: 0 <= i < k ==> !outcomes[i].MissingHeight?
    requires k < |outcomes| ==> outcomes[k].MissingHeight?
    ensures BeforeFirstMissing(outcomes) == k
  {
  }

  /**
   * The loop's outcome in its own terms: it throws exactly when some entry
   * throws, and the list then holds the accepted pairs of the entries
   * before the first such entry (of all entries, if there is none).
   */
  lemma {:induction false} RunCharacterised(outcomes: seq<EntryParse>)
    ensures var n := BeforeFirstMissing(outcomes);
      && Run(outcomes).resolutions == AcceptedOf(outcomes[..n])
      && (Run(outcomes).failed <==> n < |outcomes|)
  {
    if |outcomes| > 0 {
      var init, last := outcomes[..|outcomes| - 1], outcomes[|outcomes| - 1];
      assert outcomes == init + [last];
      RunCharacterised(init);
      var m := BeforeFirstMissing(init);
      if m < |init| {
        BeforeFirstMissingUnique(outcomes, m);
        assert init[..m] == outcomes[..m];
      } else {
        assert init[..m] == init;
        if !last.MissingHeight? {
          BeforeFirstMissingUnique(outcomes, |outcomes|);
          assert outcomes[..|outcomes|] == init + [last];
          AcceptedOfSnoc(init, last);
        } else {
          BeforeFirstMissingUnique(outcomes, m);
        }
      }
    }
  }

  /** The loop's outcome for the entries of a setting. */
  function ParseEntries(entries: seq<string>): ConfigParse
  {
    Run(ParseAll(entries))
  }

  predicate HasEntryWithoutComma(entries: seq<string>)
  {
    exists i :: 0 <= i < |entries| && ',' !in entries[i]
  }

  /** The loop throws exactly when some entry has no comma. */
  lemma ThrowsIffEntryWithoutComma(entries: seq<string>)
    ensures ParseEntries(entries).failed <==> HasEntryWithoutComma(entries)
  {
    var outcomes := ParseAll(entries);
    RunCharacterised(outcomes);
    var n := BeforeFirstMissing(outcomes);
    if n < |entries| {
      ParseAllAt(entries, n);
      MissingHeightIffNoComma(entries[n]);
    }
    if HasEntryWithoutComma(entries) {
      var i :| 0 <= i < |entries| && ',' !in entries[i];
      ParseAllAt(entries, i);
      MissingHeightIffNoComma(entries[i]);
    }
  }

  lemma ParseAllAt(entries: seq<string>, i: nat)
    requires i < |entries|
    ensures ParseAll(entries)[i] == ParseEntry(entries[i])
  {
  }

  /** The loop stops at entry `i` when that entry has no comma, with the list as it stands. */
  lemma ThrowsAt(entries: seq<string>, i: nat)
    requires i < |entries| && !Run(ParseAll(entries)[..i]).failed
    requires |Split(entries[i], ',')| < 2
    ensures HasEntryWithoutComma(entries)
    ensures ParseEntries(entries) == ConfigParse(Run(ParseAll(entries)[..i]).resolutions, true)
  {
    var outcomes := ParseAll(entries);
    SplitSingle(entries[i], ',');
    ParseAllAt(entries, i);
    assert outcomes[i] == MissingHeight;
    RunStep(outcomes, i);
    FailureIsFinal(outcomes, i + 1);
  }

  /** `string.IsNullOrEmpty`. */
  predicate IsNullOrEmpty(config: Option<string>)
  {
    config == None || config == Some("")
  }

  /** The list after the call: left alone for a missing setting, otherwise rebuilt from scratch. */
  function ListAfter(current: seq<Resolution>, config: Option<string>): seq<Resolution>
  {
    if IsNullOrEmpty(config) then current
    else ParseEntries(Split(config.value, ';')).resolutions
  }

  /** Whether the call throws `IndexOutOfRangeException`. */
  predicate ConfigThrows(config: Option<string>)
  {
    !IsNullOrEmpty(config) && HasEntryWithoutComma(Split(config.value, ';'))
  }

  /** A missing or empty setting leaves the list as it was. */
  lemma AbsentConfigKeepsList(current: seq<Resolution>, config: Option<string>)
    requires IsNullOrEmpty(config)
    ensures ListAfter(current, config) == current && !ConfigThrows(config)
  {
  }

  /** A present setting replaces the list: what was there before does not matter. */
  lemma ConfigReplacesList(a: seq<Resolution>, b: seq<Resolution>, config: Option<string>)
    requires !IsNullOrEmpty(config)
    ensures ListAfter(a, config) == ListAfter(b, config)
  {
  }

  /** Reading the same setting twice gives the list reading it once gives. */
  lemma ReadTwiceSameAsOnce(current: seq<Resolution>, config: Option<string>)
    ensures ListAfter(ListAfter(current, config), config) == ListAfter(current, config)
  {
  }

  /**
   * A present setting whose entries all have a comma yields exactly the
   * accepted pairs, in their order, and does not throw.
   */
  lemma WellFormedConfig(current: seq<Resolution>, s: string)
    requires s != ""
    requires forall e :: e in Split(s, ';') ==> ',' in e
    ensures ListAfter(current, Some(s)) == AcceptedOf(ParseAll(Split(s, ';')))
    ensures !ConfigThrows(Some(s))
  {
    var entries := Split(s, ';');
    var outcomes := ParseAll(entries);
    assert !HasEntryWithoutComma(entries) by {
      forall i | 0 <= i < |entries| ensures ',' in entries[i] {
        assert entries[i] in entries;
      }
    }
    ThrowsIffEntryWithoutComma(entries);
    assert !Run(outcomes).failed;
    RunCharacterised(outcomes);
    var n := BeforeFirstMissing(outcomes);
    assert n == |outcomes|;
    assert outcomes[..n] == outcomes;
    assert !IsNullOrEmpty(Some(s));
    assert ListAfter(current, Some(s)) == Run(outcomes).resolutions;
  }

  /**
   * A present setting whose entry `k` is the first without a comma throws,
   * and the list keeps the accepted pairs of the entries before it: it has
   * been cleared and partly refilled.
   */
  lemma ThrowingConfigKeepsEarlierPairs(current: seq<Resolution>, s: string, k: nat)
    requires s != ""
    requires k < |Split(s, ';')| && ',' !in Split(s, ';')[k]
    requires forall i :: 0 <= i < k ==> ',' in Split(s, ';')[i]
    ensures ConfigThrows(Some(s))
    ensures ListAfter(current, Some(s)) == AcceptedOf(ParseAll(Split(s, ';'))[..k])
  {
    var entries := Split(s, ';');
    var outcomes := ParseAll(entries);
    forall i | 0 <= i < k ensures !outcomes[i].MissingHeight? {
      ParseAllAt(entries, i);
      MissingHeightIffNoComma(entries[i]);
    }
    ParseAllAt(entries, k);
    MissingHeightIffNoComma(entries[k]);
    BeforeFirstMissingUnique(outcomes, k);
    RunCharacterised(outcomes);
    assert !IsNullOrEmpty(Some(s));
    assert HasEntryWithoutComma(entries);
  }

  /**
   * A setting that is there but has no usable pair empties the list: the
   * default `(512, 384)` does not come back.
   */
  lemma AllMalformedEmptiesList(current: seq<Resolution>, s: string)
    requires s != ""
    requires forall e :: e in Split(s, ';') ==> ParseEntry(e) == Dropped
    ensures ListAfter(current, Some(s)) == [] && !ConfigThrows(Some(s))
  {
    var entries := Split(s, ';');
    forall e | e in entries ensures ',' in e {
      MissingHeightIffNoComma(e);
    }
    WellFormedConfig(current, s);
    forall i | 0 <= i < |entries| ensures ParseAll(entries)[i] == Dropped {
      ParseAllAt(entries, i);
      assert entries[i] in entries;
    }
    NoneAccepted(ParseAll(entries));
  }

  lemma {:induction false} NoneAccepted(outcomes: seq<EntryParse>)
    requires forall i :: 0 <= i < |outcomes| ==> outcomes[i] == Dropped
    ensures AcceptedOf(outcomes) == []
  {
    if |outcomes| > 0 {
      NoneAccepted(outcomes[1..]);
    }
  }

  /**
   * An entry without a comma makes the call throw; so does a trailing `;`,
   * whose empty last entry has no comma.
   */
  lemma TrailingSemicolonThrows(s: string)
    ensures ConfigThrows(Some(s + ";"))
  {
    SplitTrailingSeparator(s, ';');
    var entries := Split(s + ";", ';');
    assert entries[|entries| - 1] == "";
  }

  /** `w,h` splits into its two parts. */
  lemma SplitPair(w: string, h: string)
    requires ',' !in w && ',' !in h
    ensures Split(w + "," + h, ',') == [w, h]
  {
    assert Join([w, h], ',') == w + "," + h;
    SplitJoin([w, h], ',');
  }

  /** Two skipped entries, then one accepted: only the last pair remains. */
  lemma TwoDroppedThenAccepted(current: seq<Resolution>, s: string, a: string, b: string, c: string, r: Resolution)
    requires s != "" && Split(s, ';') == [a, b, c]
    requires ParseEntry(a) == Dropped && ParseEntry(b) == Dropped && ParseEntry(c) == Accepted(r)
    ensures ListAfter(current, Some(s)) == [r] && !ConfigThrows(Some(s))
  {
    var entries := [a, b, c];
    MissingHeightIffNoComma(a);
    MissingHeightIffNoComma(b);
    MissingHeightIffNoComma(c);
    WellFormedConfig(current, s);
    ParseAllAt(entries, 0);
    ParseAllAt(entries, 1);
    ParseAllAt(entries, 2);
    OnlyLastAccepted(ParseAll(entries), r);
  }

  lemma OnlyLastAccepted(outcomes: seq<EntryParse>, r: Resolution)
    requires |outcomes| == 3 && outcomes[0] == Dropped && outcomes[1] == Dropped && outcomes[2] == Accepted(r)
    ensures AcceptedOf(outcomes) == [r]
  {
    var rest := outcomes[1..];
    assert rest[1..] == [Accepted(r)];
    assert AcceptedOf([Accepted(r)]) == [r] + AcceptedOf([]);
  }

  lemma ExampleEntries()
    ensures Split("abc,384;512,xyz;800,600", ';') == ["abc,384", "512,xyz", "800,600"]
  {
    var entries := ["abc,384", "512,xyz", "800,600"];
    assert Join(entries, ';') == "abc,384;512,xyz;800,600";
    SplitJoin(entries, ';');
  }

  lemma ExampleWidthNotANumber()
    ensures ParseEntry("abc,384") == Dropped
  {
    SplitPair("abc", "384");
    assert "abc" + "," + "384" == "abc,384";
    assert TrimEnd(TrimStart("abc")) == "abc";
    assert !IsDigit("abc"[0]);
  }

  lemma ExampleHeightNotANumber()
    ensures ParseEntry("512,xyz") == Dropped
  {
    SplitPair("512", "xyz");
    assert "512" + "," + "xyz" == "512,xyz";
    assert TrimEnd(TrimStart("xyz")) == "xyz";
    assert !IsDigit("xyz"[0]);
  }

  lemma ExampleBothNumbers()
    ensures ParseEntry("800,600") == Accepted(Resolution(800, 600))
  {
    var w, h := Int32ToString(800), Int32ToString(600);
    assert w == "800" by { assert NatToString(80) == "80"; }
    assert h == "600" by { assert NatToString(60) == "60"; }
    FormattedEntryAccepted(800, 600);
    assert w + "," + h == "800,600";
  }

  /** Any pair written out as `w,h` in decimal is read back as that pair. */
  lemma FormattedEntryAccepted(w: int32, h: int32)
    ensures ParseEntry(Int32ToString(w) + "," + Int32ToString(h)) == Accepted(Resolution(w, h))
  {
    var ws, hs := Int32ToString(w), Int32ToString(h);
    Int32ToStringShape(w);
    Int32ToStringShape(h);
    assert forall j :: 1 <= j < |ws| ==> ws[j] == ws[1..][j - 1];
    assert forall j :: 1 <= j < |hs| ==> hs[j] == hs[1..][j - 1];
    ParseEntryPair(ws, hs);
    ParsesAs(ws, w);
    ParsesAs(hs, h);
  }

  /** Zero and negative sizes are accepted as they are. */
  lemma ZeroAndNegativeAccepted()
    ensures ParseEntry("0,-5") == Accepted(Resolution(0, -5))
  {
    assert Int32ToString(0) == "0";
    assert NatToString(5) == "5";
    assert Int32ToString(-5) == "-5";
    FormattedEntryAccepted(0, -5);
    assert "0" + "," + "-5" == "0,-5";
  }

  /** `abc,384;512,xyz;800,600` leaves exactly `[(800, 600)]`, without throwing. */
  lemma MalformedEntriesDropped(current: seq<Resolution>)
    ensures ListAfter(current, Some("abc,384;512,xyz;800,600")) == [Resolution(800, 600)]
    ensures !ConfigThrows(Some("abc,384;512,xyz;800,600"))
  {
    ExampleEntries();
    ExampleWidthNotANumber();
    ExampleHeightNotANumber();
    ExampleBothNumbers();
    TwoDroppedThenAccepted(current, "abc,384;512,xyz;800,600", "abc,384", "512,xyz", "800,600", Resolution(800, 600));
  }
}
