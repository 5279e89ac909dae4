/** The label stage: detections whose validated labels say "tagged bee" and
    "waggle dance", where a manual correction overrides the original label. */
module LabelFilter {
  import opened Wrappers
  import opened Sequences
  import opened Records

  /** The tag status that counts (`TagStatus.tagged.name`). */
  const Tagged: string := "tagged"

  /** The dance type that counts. */
  const Waggle: string := "waggle"

  /** One row of the label table. Every label column may be empty (`None`). */
  datatype LabelRecord = LabelRecord(
    waggleId: string,
    categoryLabel: Option<string>,
    correctedCategoryLabel: Option<string>,
    danceType: Option<string>,
    correctedDanceType: Option<string>)

  /** The value that counts for one attribute: the correction when there is one,
      the original otherwise. */
  function Authoritative(original: Option<string>, corrected: Option<string>): Option<string>
  {
    if corrected.Some? then corrected else original
  }

  /** The shared "correction overrides original" test: does the attribute equal
      `target`? A present correction decides alone; without one the original
      decides, and an empty original never matches. */
  predicate ResolvesTo(original: Option<string>, corrected: Option<string>, target: string)
    ensures corrected.Some? ==> (ResolvesTo(original, corrected, target) <==> corrected.value == target)
    ensures corrected.None? ==> (ResolvesTo(original, corrected, target) <==> original == Some(target))
    ensures ResolvesTo(original, corrected, target) <==> Authoritative(original, corrected) == Some(target)
  {
    (original == Some(target) && corrected.None?) || (corrected.Some? && corrected.value == target)
  }

  /** Why evaluating the test raised. */
  datatype LabelError =
    /** Comparing an empty (`<NA>`) original label yields `<NA>`, and asking for
        the truth value of `<NA>` raises. */
    | AmbiguousMissingLabel

  /** The test as the two `is_tagged`/`is_waggle` bodies evaluate it: the
      original is compared first, so an empty original raises before the
      correction is looked at. Otherwise it agrees with `ResolvesTo`. */
  function ResolvesToAsWritten(original: Option<string>, corrected: Option<string>, target: string): (r: Result<bool, LabelError>)
    ensures original.None? <==> r.Failure?
    ensures r.Success? ==> r.value == ResolvesTo(original, corrected, target)
  {
    match original
    case None => Failure(AmbiguousMissingLabel)
    case Some(o) => Success((o == target && corrected.None?) || (corrected.Some? && corrected.value == target))
  }

  /** A corrected label is ignored as written when the original is missing:
      the row below raises instead of counting as tagged. */
  lemma MissingOriginalRaisesAsWritten()
    ensures ResolvesTo(None, Some(Tagged), Tagged)
    ensures ResolvesToAsWritten(None, Some(Tagged), Tagged).Failure?
  {
  }

  /** The tag status that counts is "tagged". */
  predicate IsTagged(row: LabelRecord)
    ensures IsTagged(row) <==>
      || (row.categoryLabel == Some(Tagged) && row.correctedCategoryLabel.None?)
      || (row.correctedCategoryLabel.Some? && row.correctedCategoryLabel.value == Tagged)
    ensures IsTagged(row) <==> Authoritative(row.categoryLabel, row.correctedCategoryLabel) == Some(Tagged)
  {
    ResolvesTo(row.categoryLabel, row.correctedCategoryLabel, Tagged)
  }

  /** The dance type that counts is "waggle". */
  predicate IsWaggle(row: LabelRecord)
    ensures IsWaggle(row) <==>
      || (row.danceType == Some(Waggle) && row.correctedDanceType.None?)
      || (row.correctedDanceType.Some? && row.correctedDanceType.value == Waggle)
    ensures IsWaggle(row) <==> Authoritative(row.danceType, row.correctedDanceType) == Some(Waggle)
  {
    ResolvesTo(row.danceType, row.correctedDanceType, Waggle)
  }

  /** The label rows of one detection. */
  function RowsFor(table: seq<LabelRecord>, waggleId: string): (rows: seq<LabelRecord>)
    ensures forall i :: 0 <= i < |rows| ==> rows[i].waggleId == waggleId && rows[i] in table
    ensures forall i :: 0 <= i < |table| ==> (table[i] in rows <==> table[i].waggleId == waggleId)
  {
    Filter((row: LabelRecord) => row.waggleId == waggleId, table)
  }

  /** The rows looked up for a detection are all of its rows: each one as many
      times as the table holds it. */
  lemma RowsForMultiplicity(table: seq<LabelRecord>, waggleId: string)
    ensures forall i :: 0 <= i < |table| && table[i].waggleId == waggleId ==>
      multiset(RowsFor(table, waggleId))[table[i]] == multiset(table)[table[i]]
  {
    FilterMultiplicity((row: LabelRecord) => row.waggleId == waggleId, table);
  }

  /** Some label row of the detection says it is a tagged waggle run. */
  ghost predicate LabelledTaggedWaggle(table: seq<LabelRecord>, waggleId: string)
  {
    exists i :: 0 <= i < |table| && table[i].waggleId == waggleId && IsTagged(table[i]) && IsWaggle(table[i])
  }

  /** With at most one label row, being labelled a tagged waggle run is what
      that single row says. */
  lemma SingleRowDecides(table: seq<LabelRecord>, waggleId: string)
    requires |RowsFor(table, waggleId)| <= 1
    ensures LabelledTaggedWaggle(table, waggleId) <==>
      (|RowsFor(table, waggleId)| == 1 && IsTagged(RowsFor(table, waggleId)[0]) && IsWaggle(RowsFor(table, waggleId)[0]))
  {
    var rows := RowsFor(table, waggleId);
    if LabelledTaggedWaggle(table, waggleId) {
      var i :| 0 <= i < |table| && table[i].waggleId == waggleId && IsTagged(table[i]) && IsWaggle(table[i]);
      assert table[i] in rows;
    }
    if |rows| == 1 {
      var j :| 0 <= j < |table| && table[j] == rows[0];
    }
  }

  /** Keeps the detections labelled as tagged waggle runs, in order. A detection
      without a label row is dropped; the first one with several rows stops the
      stage with its id (the uniqueness assertion fails). */
  function TaggedWaggles(candidates: seq<Candidate>, table: seq<LabelRecord>): (r: Result<seq<Candidate>, string>)
    ensures r.Failure? <==> exists i :: 0 <= i < |candidates| && |RowsFor(table, candidates[i].waggleId)| > 1
    ensures r.Failure? ==> |RowsFor(table, r.error)| > 1 && exists i :: 0 <= i < |candidates| && candidates[i].waggleId == r.error
    ensures r.Success? ==> IsSubsequence(r.value, candidates)
    ensures r.Success? ==> forall i :: 0 <= i < |r.value| ==> LabelledTaggedWaggle(table, r.value[i].waggleId)
    ensures r.Success? ==> forall i :: 0 <= i < |candidates| ==>
      (candidates[i] in r.value <==> LabelledTaggedWaggle(table, candidates[i].waggleId))
    decreases |candidates|
  {
    if |candidates| == 0 then
      Success([])
    else
      var c := candidates[0];
      var rows := RowsFor(table, c.waggleId);
      if |rows| > 1 then
        Failure(c.waggleId)
      else
        SingleRowDecides(table, c.waggleId);
        assert candidates == [c] + candidates[1..];
        var rest := TaggedWaggles(candidates[1..], table);
        if rest.Failure? then
          rest
        else if |rows| == 1 && IsTagged(rows[0]) && IsWaggle(rows[0]) then
          assert ([c] + rest.value)[1..] == rest.value;
          Success([c] + rest.value)
        else
          Success(rest.value)
  }

  /** A successful label stage is the selection of the detections labelled as
      tagged waggle runs: every such detection is kept as many times as it is
      listed, in order, and no other is kept. */
  lemma {:induction false} TaggedWagglesIsFilter(candidates: seq<Candidate>, table: seq<LabelRecord>)
    ensures TaggedWaggles(candidates, table).Success? ==>
      TaggedWaggles(candidates, table).value == Filter((c: Candidate) => LabelledTaggedWaggle(table, c.waggleId), candidates)
    decreases |candidates|
  {
    if |candidates| > 0 && TaggedWaggles(candidates, table).Success? {
      var c := candidates[0];
      var rows := RowsFor(table, c.waggleId);
      SingleRowDecides(table, c.waggleId);
      TaggedWagglesIsFilter(candidates[1..], table);
      var rest := Filter((c: Candidate) => LabelledTaggedWaggle(table, c.waggleId), candidates[1..]);
      if LabelledTaggedWaggle(table, c.waggleId) {
        assert Filter((c: Candidate) => LabelledTaggedWaggle(table, c.waggleId), candidates) == [c] + rest;
      } else {
        assert Filter((c: Candidate) => LabelledTaggedWaggle(table, c.waggleId), candidates) == rest;
      }
    }
  }
}
