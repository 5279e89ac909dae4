/** The strings derived from a cut video's file name: the name of the original
    recording it was cut from, and the text of that recording's start time. */
module VideoNames {
  import opened Wrappers
  import opened Strings

  /** Reduces a timestamp with several `.`-separated fractional-second sections
      to its first one, so that an ISO-8601 parser accepts it: the text before
      the second `.`, closed with a `Z`. A timestamp with at most one `.` is left
      alone; either way at most one `.` remains. */
  function TruncateHigherPrecisionTimestamp(ts: string): (r: string)
    ensures multiset(ts)['.'] < 2 ==> r == ts
    ensures multiset(ts)['.'] >= 2 ==>
      && 0 < |r| <= |ts|
      && r[|r| - 1] == 'Z'
      && IsLeadingSections(r[..|r| - 1], ts, '.', 2)
    ensures multiset(r)['.'] <= 1
    ensures multiset(ts)['.'] >= 2 ==> multiset(r)['.'] == 1
  {
    if multiset(ts)['.'] >= 2 then
      var sections := Split(ts, '.');
      SplitPieces(ts, '.');
      FirstTwoSections(ts, '.');
      sections[0] + "." + sections[1] + "Z"
    else
      ts
  }

  /** The first two pieces of a split, rejoined, are the text's first two sections. */
  lemma LeadingTwoSections(s: string, sep: char)
    requires multiset(s)[sep] >= 1
    ensures |Split(s, sep)| >= 2
    ensures IsLeadingSections(Split(s, sep)[0] + [sep] + Split(s, sep)[1], s, sep, 2)
  {
    var parts := Split(s, sep);
    SplitPieces(s, sep);
    var p := parts[0] + [sep] + parts[1];
    JoinedHead(parts, sep);
    assert s[..|p|] == p;
    assert sep !in parts[0] && sep !in parts[1];
    SeparatorFreeCount(parts[0], parts[1], sep);
  }

  /** Joining pieces starts with the first two pieces, followed by a separator
      when more pieces follow. */
  lemma JoinedHead(parts: seq<string>, sep: char)
    requires |parts| >= 2
    ensures
      var p := parts[0] + [sep] + parts[1];
      && |p| <= |Join(parts, sep)|
      && Join(parts, sep)[..|p|] == p
      && (|p| == |Join(parts, sep)| || Join(parts, sep)[|p|] == sep)
  {
    var p := parts[0] + [sep] + parts[1];
    if |parts| == 2 {
      assert Join(parts[1..], sep) == parts[1];
      assert Join(parts, sep) == p;
    } else {
      var rest := Join(parts[2..], sep);
      assert parts[1..][1..] == parts[2..];
      assert Join(parts[1..], sep) == parts[1] + [sep] + rest;
      assert Join(parts, sep) == p + ([sep] + rest);
    }
  }

  /** Two separator-free pieces joined by one separator hold exactly one. */
  lemma SeparatorFreeCount(a: string, b: string, sep: char)
    requires sep !in a && sep !in b
    ensures multiset(a + [sep] + b)[sep] == 1
  {
    assert multiset(a)[sep] == 0;
    assert multiset(b)[sep] == 0;
    assert multiset(a + [sep] + b) == multiset(a) + multiset([sep]) + multiset(b);
  }

  /** With two or more separators the first two sections end before the text does,
      and closing them with a `Z` adds no separator other than a `Z` itself. */
  lemma FirstTwoSections(s: string, sep: char)
    requires multiset(s)[sep] >= 2
    ensures |Split(s, sep)| >= 3
    ensures
      var p := Split(s, sep)[0] + [sep] + Split(s, sep)[1];
      IsLeadingSections(p, s, sep, 2) && |p| < |s| && multiset(p + "Z")[sep] == (if sep == 'Z' then 2 else 1)
  {
    SplitPieces(s, sep);
    LeadingTwoSections(s, sep);
    var p := Split(s, sep)[0] + [sep] + Split(s, sep)[1];
    assert multiset(p + "Z") == multiset(p) + multiset("Z");
  }

  /** Running the truncation on its own output changes nothing. */
  lemma TruncationIdempotent(ts: string)
    ensures TruncateHigherPrecisionTimestamp(TruncateHigherPrecisionTimestamp(ts))
         == TruncateHigherPrecisionTimestamp(ts)
  {
  }

  /** The camera prefix removed from a recording name to leave its timestamps. */
  const CameraPrefix: string := "cam-1_"

  /** Separates a recording's start and end timestamps in its name. */
  const RangeSeparator: string := "--"

  /** `stem` is the recording name without suffix for the cut file name
      `fileName`: its first two `_`-separated sections, closed with a `Z` unless
      they already end in one. */
  ghost predicate IsRecordingStem(stem: string, fileName: string)
  {
    && |stem| > 1
    && stem[|stem| - 1] == 'Z'
    && (|| IsLeadingSections(stem, fileName, '_', 2)
        || (IsLeadingSections(stem[..|stem| - 1], fileName, '_', 2) && !EndsWith(stem[..|stem| - 1], "Z")))
  }

  /** The original recording's file name, from a cut video's file name such as
      `cam-1_20240904T122936.14581.115Z--20240904T123435.952057.695Z_14.30_40.mp4`:
      the first two `_`-separated pieces, closed with a `Z` when the second lacks
      one, followed by the file's suffix. A name without `_` has no second piece
      and raises (`None`). */
  function OriginalVideoName(fileName: string): (r: Option<string>)
    ensures r.None? <==> '_' !in fileName
    ensures r.Some? ==>
      && EndsWith(r.value, Suffix(fileName))
      && IsRecordingStem(r.value[..|r.value| - |Suffix(fileName)|], fileName)
  {
    if '_' !in fileName then
      None
    else
      var stem := RecordingStem(fileName);
      StemWithSuffix(stem, Suffix(fileName));
      Some(stem + Suffix(fileName))
  }

  /** The first two `_`-separated pieces of a cut file name, closed with a `Z`. */
  function RecordingStem(fileName: string): (stem: string)
    requires '_' in fileName
    ensures IsRecordingStem(stem, fileName)
  {
    var parts := Split(fileName, '_');
    NamePieces(fileName);
    parts[0] + "_" + parts[1] + (if EndsWith(parts[1], "Z") then "" else "Z")
  }

  /** The stem's shape, from the first two sections of the cut name. */
  lemma NamePieces(fileName: string)
    requires '_' in fileName
    ensures |Split(fileName, '_')| >= 2
    ensures
      var parts := Split(fileName, '_');
      IsRecordingStem(parts[0] + "_" + parts[1] + (if EndsWith(parts[1], "Z") then "" else "Z"), fileName)
  {
    assert '_' in multiset(fileName);
    var parts := Split(fileName, '_');
    LeadingTwoSections(fileName, '_');
    EndsWithAfterSeparator(parts[0], parts[1]);
    ClosedStem(parts[0] + "_" + parts[1], fileName);
  }

  /** Whether `a_b` ends in `Z` depends on `b` alone. */
  lemma EndsWithAfterSeparator(a: string, b: string)
    ensures EndsWith(a + "_" + b, "Z") <==> EndsWith(b, "Z")
  {
    var lead := a + "_" + b;
    assert lead[|lead| - 1] == (if |b| > 0 then b[|b| - 1] else '_');
  }

  /** The first two sections, closed with a `Z` when they lack one, form a stem. */
  lemma ClosedStem(lead: string, fileName: string)
    requires IsLeadingSections(lead, fileName, '_', 2)
    ensures IsRecordingStem(lead + (if EndsWith(lead, "Z") then "" else "Z"), fileName)
  {
    assert '_' in multiset(lead);
    if EndsWith(lead, "Z") {
      assert lead + "" == lead;
      assert lead[|lead| - 1] == 'Z' && lead[|lead| - 1] != '_';
    } else {
      var stem := lead + "Z";
      assert stem[..|stem| - 1] == lead;
    }
  }

  lemma StemWithSuffix(stem: string, suffix: string)
    ensures EndsWith(stem + suffix, suffix)
    ensures (stem + suffix)[..|stem + suffix| - |suffix|] == stem
  {
  }

  /** The start time text of an original recording, `cam-1_<start>--<end>.mp4`:
      the camera prefix removed everywhere, everything from the first `--` on
      dropped, and the fractional seconds truncated. At most one `.` remains. */
  function StartTimestampText(originalName: string): (r: string)
    ensures multiset(r)['.'] <= 1
  {
    TruncateHigherPrecisionTimestamp(TextBefore(RemoveAll(originalName, CameraPrefix), RangeSeparator))
  }

  /** For a recording name of the expected shape, the start time text is the
      truncated text between the camera prefix and the first `--`. */
  lemma StartTimestampOfWellFormedName(start: string, rest: string)
    requires forall i: nat :: i < |start| ==> !OccursAt(start + RangeSeparator + rest, RangeSeparator, i)
    requires forall i: nat :: i < |start + RangeSeparator + rest| ==> !OccursAt(start + RangeSeparator + rest, CameraPrefix, i)
    ensures StartTimestampText(CameraPrefix + start + RangeSeparator + rest) == TruncateHigherPrecisionTimestamp(start)
  {
    var x := start + RangeSeparator + rest;
    assert CameraPrefix + start + RangeSeparator + rest == CameraPrefix + x;
    RemoveLeadingOccurrence(CameraPrefix, x);
    var r := TextBefore(x, RangeSeparator);
    assert OccursAt(x, RangeSeparator, |start|) by {
      assert x[|start|..|start| + 2] == RangeSeparator;
    }
    assert |r| == |start|;
    assert r == x[..|start|] == start;
  }
}
