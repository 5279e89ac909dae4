# Waggle-run annotation matcher — a Dafny model

`annotation_matcher.py` pairs waggle runs that a person marked by hand in short
cut videos with waggle runs that the waggle dance detector (WDD) found on its
own in the full recordings. For every cut video it works out which original
recording the clip was cut from and when that recording started. Each
hand-annotated run then goes through a funnel:

1. **Frame synchronisation.** Find where the clip begins in the recording: the
   first frame of the recording equal to the clip's first frame.
2. **Time window.** Keep the detections whose waggle began within a tolerance of
   the expected moment: recording start plus (clip offset + annotated start
   frame) / frame rate. Both ends of the window are inclusive.
3. **Labels.** Keep the detections whose validated labels say "tagged" and
   "waggle". A manual correction overrides the original label. A detection
   without a label row is dropped. A detection with two rows fails the
   uniqueness assertion.
4. **Position.** Keep the detections whose region-of-interest centre lies within
   a per-axis pixel tolerance of the hand-marked start position. Before the
   comparison, the start position is carried into the detector's frame with the
   marker sets valid at the detection's time, and the centre is optionally
   shifted by the 125-pixel padding fix.

The records are grouped by original recording.

The model is functional: immutable datatypes, pure functions, and lemmas
relating them. The modules follow the program's stages:

- `Wrappers`: `Option`, `Result`, and exception propagation over a sequence of steps.
- `Sequences`: order-preserving selection; every filter stage has this shape.
- `Strings`: the Python `str` operations the name handling uses (`split`,
  `replace(pat, "")`, `partition(sep)[0]`, `endswith`, `rfind`,
  `PurePath.suffix`).
- `VideoNames`: deriving the original recording's name and its start-time text.
- `Records`: detections, manual annotations and output records.
- `TemporalFilter`, `LabelFilter`, `Markers`, `SpatialFilter`, `FrameSync`: one per stage.
- `Matcher`: the per-event funnel, the per-video loop and the grouping of results.

Representation choices:

- **Timestamps.** Integer microsecond ticks.
- **Time window.** Specified over exact rationals (`real`). It is computed as
  the program's inequality multiplied through by the frame rate, and the two
  are proved equivalent.
- **Frames.** Values of any type with equality.
- **Videos.** A video either cannot be opened or yields its frames.
- **Coordinate transformer.** An uninterpreted function of the two marker sets
  and the point.
- **ISO-8601 parser.** An uninterpreted partial function from text to ticks.

## Behaviour worth noting

- **Early exits in the funnel.** The funnel stops early only when frame
  synchronisation fails or the time window is empty. An event whose label or
  position stage leaves no detection still produces a record, with an empty
  candidate list. `Matcher.Funnel` and `Matcher.MatchEvent` state this.
- **Inclusive adjacency.** `is_adjacent` compares with `<=`. A region centred
  at (500, 500) and a start position that maps to (600, 600) are adjacent at
  tolerance 100, with or without the padding fix
  (`SpatialFilter.PaddingScenario`).

## Model

| member | source | states |
|---|---|---|
| VideoNames.TruncateHigherPrecisionTimestamp | annotation_matcher.py:227-237 | A timestamp with fewer than two `.` is returned unchanged. Otherwise the result is the text before the second `.` (its first two `.`-sections) followed by `Z`, and it holds exactly one `.`. |
| VideoNames.TruncationIdempotent | annotation_matcher.py:227-237 | Truncating an already truncated timestamp changes nothing. |
| Strings.Split | annotation_matcher.py:234 | `split` on one character always gives at least one piece. |
| Strings.SplitPieces | annotation_matcher.py:234 | `split` on one character gives one more piece than there are separators, no piece holds the separator, and joining the pieces with it restores the text. |
| Strings.SplitJoin | annotation_matcher.py:234 | Splitting a join of separator-free pieces gives the pieces back (the converse round trip). |
| Strings.RemoveAll | annotation_matcher.py:73 | `replace(pat, "")` never lengthens the text and leaves a text without the pattern unchanged. |
| Strings.TextBefore | annotation_matcher.py:73 | `partition(sep)[0]` is the longest prefix holding no occurrence of `sep`, ending at the text's end or at the first occurrence. |
| Strings.Suffix | annotation_matcher.py:71 | The suffix is empty exactly when there is no `.`, the only `.` is the first character, or the last character is `.`. Otherwise it is a tail of the name that starts with its last `.`. |
| VideoNames.OriginalVideoName | annotation_matcher.py:63-72 | A cut-video name without `_` raises (`None`). Otherwise the recording name is a stem followed by the file's suffix. The stem is the first two `_`-sections of the name, plus a `Z` exactly when they do not already end in one. |
| VideoNames.RecordingStem | annotation_matcher.py:64-70 | The stem built from the split pieces ends in `Z` and is the first two `_`-sections of the cut name, with at most that `Z` added. |
| VideoNames.StartTimestampText | annotation_matcher.py:73-74 | The start-time text handed to the ISO-8601 parser holds at most one `.`. |
| VideoNames.StartTimestampOfWellFormedName | annotation_matcher.py:73-74 | For a recording name `cam-1_<start>--<rest>`, where `<start>` holds no `--` and the name holds no second camera prefix, the start-time text is `<start>` truncated. |
| Sequences.Filter | annotation_matcher.py:258-261 | A boolean-mask selection is an order-preserving subsequence. It keeps an element exactly when the condition holds of it. |
| Sequences.FilterMultiplicity | annotation_matcher.py:258-261 | A selected element occurs in the selection as often as in the input; an element that fails the condition does not occur at all. |
| Sequences.NarrowTwice | annotation_matcher.py:160-189 | Two successive selections keep exactly what satisfies both conditions, in order. |
| Sequences.FilterTwice | annotation_matcher.py:160-189 | Two successive selections give the same sequence as one selection by the conjunction of their conditions, so every kept element keeps its multiplicity. |
| TemporalFilter.FilteredByTimestamp | annotation_matcher.py:240-261 | The result is an order-preserving subsequence of the detections. A detection is kept exactly when `expected − delta ≤ begin ≤ expected + delta`, with `expected = start + startFrame / fps` computed exactly. |
| TemporalFilter.ScaledWindowExact | annotation_matcher.py:247-261 | The integer test, multiplied through by the frame rate, agrees with the exact rational window for every timestamp. |
| TemporalFilter.WindowEdgesInclusive | annotation_matcher.py:250-261 | Both window edges are inside the window, and one tick beyond either edge is outside. |
| TemporalFilter.TenSecondScenario | annotation_matcher.py:240-261 | At 15 fps with a 50-frame offset and annotated frame 100, a detection at exactly 10 s is kept and one at 10.6 s is dropped (half-second tolerance). |
| LabelFilter.ResolvesTo | annotation_matcher.py:264-280 | A present correction alone decides whether the attribute equals the target. Without one, the original decides. Equivalently, the correction-or-original value is the target. |
| LabelFilter.ResolvesToAsWritten | annotation_matcher.py:264-271 | As the Python expression evaluates: it raises exactly when the original label is missing. Otherwise it agrees with `ResolvesTo`. |
| LabelFilter.MissingOriginalRaisesAsWritten | annotation_matcher.py:264-271 | A row with no original label and a correction to "tagged" counts as tagged under the override rule, yet raises as written. |
| LabelFilter.IsTagged | annotation_matcher.py:264-271 | A row is tagged exactly when its original label is "tagged" and there is no correction, or the correction is "tagged"; equivalently, the correction-or-original label is "tagged". |
| LabelFilter.IsWaggle | annotation_matcher.py:274-280 | A row is a waggle run exactly when its original dance type is "waggle" and there is no correction, or the correction is "waggle"; equivalently, the correction-or-original dance type is "waggle". |
| LabelFilter.RowsFor | annotation_matcher.py:162 | The label rows selected for a detection are exactly the table's rows carrying its id. |
| LabelFilter.RowsForMultiplicity | annotation_matcher.py:162 | Every row of the table carrying the detection's id is selected as many times as the table holds it. |
| LabelFilter.SingleRowDecides | annotation_matcher.py:162-170 | With at most one label row, being labelled a tagged waggle run is what that row says, and no row means not labelled. |
| LabelFilter.TaggedWaggles | annotation_matcher.py:160-173 | The stage fails exactly when some detection has more than one label row, naming such a detection. Otherwise it keeps, in order, exactly the detections labelled tagged and waggle. |
| LabelFilter.TaggedWagglesIsFilter | annotation_matcher.py:160-173 | When the stage succeeds its output is the selection of the detections labelled tagged and waggle, so a detection listed twice is kept twice. |
| SpatialFilter.Unrotate | annotation_matcher.py:322-331 | Un-rotation is a right inverse of the tool's rotation (x, y) ↦ (4608 − y, x). |
| SpatialFilter.UnrotateUndoesRotate | annotation_matcher.py:322-331 | Un-rotating a rotated point returns the original point. |
| SpatialFilter.UnrotateTwice | annotation_matcher.py:322-331 | Un-rotating twice is a half turn, fixing only the point (2304, 2304). |
| SpatialFilter.IsAdjacent | annotation_matcher.py:344-351 | Two points are adjacent exactly when each lies in the closed square of half-width `tol` around the other, i.e. their Chebyshev distance is at most `tol`. |
| SpatialFilter.AdjacencySymmetric | annotation_matcher.py:344-351 | Adjacency does not depend on the order of the points. |
| SpatialFilter.AdjacencyEdge | annotation_matcher.py:344-351 | Exactly `tol` away on both axes is adjacent; one more pixel on one axis is not. |
| SpatialFilter.FixPaddingError | annotation_matcher.py:334-341 | The padding fix moves a point along its diagonal, towards larger coordinates, by exactly the 125-pixel offset in Chebyshev distance. |
| SpatialFilter.IsMatchingCoordinates | annotation_matcher.py:283-319 | A match requires both marker tables to hold a marker set taken at or before the detection's begin time. |
| SpatialFilter.PaddingFixShiftsCentre | annotation_matcher.py:312-319 | With the padding fix, the check is the check without it on a centre shifted by (+125, +125). Nothing else changes. |
| SpatialFilter.UndoRotationBeforeTransform | annotation_matcher.py:305-310 | Undoing the rotation is the check without it on the un-rotated start position. |
| SpatialFilter.PaddingScenario | annotation_matcher.py:334-351 | (500, 500) against (600, 600) with tolerance 100 is adjacent with and without the padding fix; (499, 500) is not. |
| Markers.LatestTimestampAtOrBefore | annotation_matcher.py:411-416 | `None` exactly when every marker timestamp is after the detection. Otherwise the greatest marker timestamp at or before it. |
| Markers.CoordinatesAt | annotation_matcher.py:419-420 | The points of the rows at one timestamp, in table order: an order-preserving subsequence of the table's points, holding exactly the points of those rows. |
| Markers.CoordinatesAtFiltered | annotation_matcher.py:419-420 | The points at a timestamp are the points of the table filtered to that timestamp: one point per row, duplicates included. |
| Markers.MarkerCoordinatesByTimestamp | annotation_matcher.py:409-421 | `None` exactly when no marker timestamp is at or before the detection. Otherwise the points of every row at the latest such timestamp, in table order, never empty. |
| FrameSync.StartingFrame | annotation_matcher.py:393-406 | Succeeds exactly when the video opens and has a frame, returning its first frame. An unopenable video and an empty video each raise their own error. |
| FrameSync.ScanFrom | annotation_matcher.py:375-383 | The scan from an index finds the first frame at or after that index equal to the target, or reports that none is equal. |
| FrameSync.FirstMatchingFrameIndex | annotation_matcher.py:366-390 | Succeeds exactly when the clip opens with a frame, the recording opens, and some recording frame equals the clip's first frame. It returns the smallest such index, and each failure raises its own error. |
| Matcher.SpatialSettingsOf | annotation_matcher.py:178-189 | The run hands the spatial check the configured tolerance and padding setting, and never asks it to undo the rotation. |
| Matcher.MatchesPosition | annotation_matcher.py:178-189 | A detection at the right position needs both marker tables to hold a marker set taken at or before its begin time. |
| Matcher.RotationSettingIgnored | annotation_matcher.py:178-189 | The rotation setting does not change the run's spatial check: it is the check without un-rotation, whatever the setting. |
| Matcher.WindowStage | annotation_matcher.py:131-141 | The time-window stage at the synchronised offset keeps exactly the detections in the event's window. It is empty exactly when none is. |
| Matcher.WindowStageIsFilter | annotation_matcher.py:131-141 | The integer time-window stage is the selection, from all detections, of those in the event's exact window. |
| Matcher.SurvivorsOfFunnel | annotation_matcher.py:160-189 | After the label and position stages the survivors are an order-preserving subsequence of all detections, holding exactly those in the window, labelled tagged and waggle, and at the right position. |
| Matcher.SurvivorsFiltered | annotation_matcher.py:131-189 | The three stages together give exactly the selection, from all detections, of those that survive every stage, each as often as it is listed. |
| Matcher.DuplicateInWindow | annotation_matcher.py:160-165 | Some detection kept by the time window has several label rows exactly when some detection of the recording inside the event's window has. |
| Matcher.Funnel | annotation_matcher.py:131-220 | Once synchronised: no record exactly when the time window is empty. The stage fails exactly when some detection in the window has several label rows, and the failure names such a detection. A record holds the annotation with exactly the surviving detections, in order, each as often as it is listed. |
| Matcher.MatchEvent | annotation_matcher.py:122-220 | A failed synchronisation skips the event. After a successful one, a zero frame rate is fatal. With a usable rate, the event is skipped exactly when no detection is in its time window, fails exactly when a detection in the window has several label rows, and otherwise yields a record of its annotation holding exactly the detections that survive every stage, each as often as it is listed. Every failure after a successful synchronisation with a usable rate names a detection with several label rows. |
| Matcher.EventRecord | annotation_matcher.py:122-220 | A record exists only after a successful synchronisation, with a non-zero frame rate and a non-empty time window. It holds exactly the detections that survive every stage, in detection order, each as often as it is listed. |
| Wrappers.Gather | annotation_matcher.py:122-191 | Steps that each yield a value, nothing or an error: success exactly when no step fails, otherwise the first failing step's error. The values are exactly those the steps yield, and there are none exactly when every step yields nothing. |
| Wrappers.GatherAppend | annotation_matcher.py:122-191 | Gathering two runs of steps one after the other: a failure in the first decides, then a failure in the second, and otherwise the values of the first come before those of the second. |
| Matcher.MatchAnnotations | annotation_matcher.py:118-220 | A video's annotations succeed exactly when every event does. Otherwise the error is some event's. Each record comes from an event, every event's record is kept, and there are no records exactly when every event is skipped. |
| Matcher.RecordsInAnnotationOrder | annotation_matcher.py:122-191 | Records keep the order of their annotations: two runs of annotations one after the other give the first run's records followed by the second's, and a fatal error in the first aborts before the second. |
| Matcher.SingleAnnotation | annotation_matcher.py:122-191 | One annotation yields its event's record, no record when the event is skipped, or the event's fatal error. |
| Matcher.UnsynchronisedVideoYieldsNothing | annotation_matcher.py:122-128 | When the clip cannot be synchronised with its recording, none of the video's annotations produces a record. |
| Matcher.MatchVideo | annotation_matcher.py:63-75 | A name without `_` aborts with that name. A start-time text the parser rejects aborts with that text. Otherwise the video succeeds exactly when its annotations do, with the annotations' error when they fail. A success names the derived recording and carries the records of the video's annotations. |
| Matcher.MatchVideos | annotation_matcher.py:54-220 | The run over cut videos succeeds exactly when every video does, one outcome per video in order. Otherwise the error is that of the first failing video. |
| Matcher.Accumulate | annotation_matcher.py:191 | Grouping that appends: the recordings present are those already present or mentioned. Each holds its earlier records followed by every mentioned video's records, in video order. |
| Matcher.Overwrite | annotation_matcher.py:116 | Grouping as written: the same recordings are present, untouched recordings keep their records, and every mentioned recording holds exactly the records of the last cut video naming it. |
| Matcher.Run | annotation_matcher.py:53-191 | The corrected run, grouping with `Accumulate` instead of resetting the list at line 116 (see Findings). It succeeds exactly when every video does. Each recording then holds all records of all its cut videos, in video order. |
| Matcher.RunAsWritten | annotation_matcher.py:53-191 | The run as written: it succeeds exactly when every video does, the recordings present are those of the cut videos, and each holds only the records of the last cut video naming it. |
| Matcher.SecondCutOfRecordingDropsFirst | annotation_matcher.py:116 | Two cut videos of one recording, the first with records: as written only the second's records remain, while appending keeps both. |

## Left out

- Loading the Excel, zip, JSON and CSV inputs, the hard-coded paths, `validate_excel_path`, argument parsing, `parse_timedelta`, progress bars, logging and writing the JSON output. These are I/O; the model takes the loaded tables as values.
- OpenCV decoding. A video is a sequence of abstract frames compared for equality, and the `.all()` of the pixel comparison becomes that equality.
- `get_video_fps` and the fall-back to 15 fps. The frame rate is an input of each video. A rate of zero is modelled as the fatal division error it would cause.
- `CoordinateTransformer`. `coordinate_transformer.py` is not part of this model; the transformer is an uninterpreted function parameter.
- The radian-to-degree angle conversion and the waggle duration in the output records. These are floating point and pass-through fields.
- Python `datetime` arithmetic. `start_frame / video_fps` is a float turned into a microsecond `timedelta`; its rounding is not modelled. The window is exact over rationals, and the ISO round trip of the detection time is taken as the identity.
- Timezone handling and the text of dates used for paths (`strftime`). The ISO-8601 parser is a parameter.
- `Path(...).name`. The cut video's file name is taken as given.
- `SpatialFilter.IsMatchingCoordinates`: when a marker lookup returns `None`, the program hands `None` to the transformer, with behaviour the model cannot see. The model treats this as "no match", so it states only what a match implies.
- `LabelFilter.TaggedWaggles`: missing (`<NA>`) waggle ids and the `print` of a rejected row's labels are not modelled. The stage uses the override rule `ResolvesTo` rather than the raising evaluation described under Findings.
- Strings.RemoveAll: states only that the result is no longer than the text and that a text without the pattern is unchanged. `Strings.RemoveLeadingOccurrence` covers the one shape the program relies on: a single leading occurrence.
- VideoNames.StartTimestampText: for arbitrary names it states only that at most one `.` remains. The exact text is stated for well-formed recording names by `VideoNames.StartTimestampOfWellFormedName`.
- Strings.Split: its own contract says only that there is at least one piece. `Strings.SplitPieces` and `Strings.SplitJoin` state what the pieces are.
- Floating-point coordinates. The transformer's output is an integer point here, while the program's `CoordinateTransformer` returns floats that `is_adjacent` compares at sub-pixel precision. A match decided by a fraction of a pixel is not modelled.
- A transformer that raises. Building the transformer from a bad marker set (annotation_matcher.py:304) can raise, and the list comprehension at annotation_matcher.py:178-189 has no `try`, so the whole run aborts. The model's transformer is total and never aborts the run.
- The argument defaults (half a second, 100 pixels). The settings are a parameter of the run.
- The `undo_rotation` command-line flag. It is read but never passed on, so the funnel always calls the spatial check without un-rotation. The un-rotation itself is modelled and proved.

## Findings

| source | as written | input that shows it | evidently intended | confidence | as-written member | corrected member |
|---|---|---|---|---|---|---|
| annotation_matcher.py:264-280 | `is_tagged`/`is_waggle` compare the original label first. When the original is missing (`<NA>`), `<NA> == "tagged"` is `<NA>`, and `and` asks for its truth value, which raises `TypeError`. | A label row with `category_label` missing and `corrected_category_label = "tagged"`. | A present correction decides on its own, whatever the original is. | medium, not executed | LabelFilter.ResolvesToAsWritten, LabelFilter.MissingOriginalRaisesAsWritten | LabelFilter.ResolvesTo |
| annotation_matcher.py:116 | `results[original_video_name] = []` runs once per cut video. A second cut video of the same recording discards the records of the first. | Cut videos `cam-1_20240904T122936.14581.115Z--20240904T123435.952057.695Z_14.30_40.mp4` and `cam-1_20240904T122936.14581.115Z--20240904T123435.952057.695Z_15.10_20.mp4`, whose first two `_`-sections coincide. | Every cut video's records are kept under their recording. | medium, not executed | Matcher.Overwrite, Matcher.RunAsWritten, Matcher.SecondCutOfRecordingDropsFirst | Matcher.Accumulate, Matcher.Run |
