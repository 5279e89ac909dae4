/** The matching run: per manual annotation, the funnel of frame
    synchronisation, time window, labels and position; per cut video, the
    records of its annotations; per run, the records grouped by original
    recording. */
module Matcher {
  import opened Wrappers
  import opened Sequences
  import opened Records
  import opened VideoNames
  import opened TemporalFilter
  import opened LabelFilter
  import opened Markers
  import opened SpatialFilter
  import opened FrameSync

  /** The command-line settings. `undoRotation` is read but never handed to the
      spatial check. */
  datatype Config = Config(timeTolerance: int, coordinateTolerance: int, fixPadding: bool, undoRotation: bool)

  /** Errors that abort the whole run. */
  datatype Fatal =
    /** The cut video's name has no `_`, so it has no second piece. */
    | MalformedVideoName(fileName: string)
    /** The recording's start time text is not an ISO-8601 timestamp. */
    | UnparsableTimestamp(text: string)
    /** The frame rate is zero, and the frame offset is divided by it. */
    | ZeroFrameRate
    /** A detection has more than one label row. */
    | DuplicateLabelRows(waggleId: string)

  /** What the run loads for one cut video: its manual annotations, the
      detections and label table of its recording's day, both videos, and the
      recording's frame rate. */
  datatype VideoJob<F> = VideoJob(
    cutFileName: string,
    annotations: seq<ManualAnnotation>,
    candidates: seq<Candidate>,
    labels: seq<LabelRecord>,
    original: Video<F>,
    cut: Video<F>,
    fps: nat)

  /** What stays fixed over a run: the settings, both marker tables, the
      ISO-8601 parser and the coordinate transformer. */
  datatype Env = Env(
    config: Config,
    hdMarkers: seq<MarkerRow>,
    wddMarkers: seq<MarkerRow>,
    parseTimestamp: string -> Option<int>,
    transform: Transform)

  /** The spatial check's settings as the run calls it: rotation is never undone. */
  function SpatialSettingsOf(config: Config): (settings: SpatialSettings)
    ensures !settings.undoRotation
    ensures settings.tolerance == config.coordinateTolerance && settings.fixPadding == config.fixPadding
  {
    SpatialSettings(config.coordinateTolerance, config.fixPadding, false)
  }

  /** A detection passes the spatial check for an annotation. */
  predicate MatchesPosition(c: Candidate, annotation: ManualAnnotation, env: Env)
    ensures MatchesPosition(c, annotation, env) ==>
      && (exists i :: 0 <= i < |env.hdMarkers| && env.hdMarkers[i].timestamp <= c.timestampBegin)
      && (exists i :: 0 <= i < |env.wddMarkers| && env.wddMarkers[i].timestamp <= c.timestampBegin)
  {
    IsMatchingCoordinates(c, annotation, env.hdMarkers, env.wddMarkers, SpatialSettingsOf(env.config), env.transform)
  }

  /** The rotation setting has no effect on the run's spatial check: the
      hand-marked position is handed to the transformer as marked. */
  lemma RotationSettingIgnored(c: Candidate, annotation: ManualAnnotation, env: Env, undoRotation: bool)
    ensures MatchesPosition(c, annotation, env) == MatchesPosition(c, annotation, env.(config := env.config.(undoRotation := undoRotation)))
    ensures MatchesPosition(c, annotation, env) ==
      IsMatchingCoordinates(c, annotation, env.hdMarkers, env.wddMarkers,
        SpatialSettings(env.config.coordinateTolerance, env.config.fixPadding, false), env.transform)
  {
  }

  /** The time window of an annotation once the cut video's offset is known. */
  ghost predicate InEventWindow(c: Candidate, annotation: ManualAnnotation, offset: nat, videoStart: int, fps: nat, env: Env)
    requires fps > 0
  {
    InWindow(c.timestampBegin, videoStart, env.config.timeTolerance, offset + annotation.startFrame, fps)
  }

  /** A detection survives every stage of the funnel. */
  ghost predicate Survives(c: Candidate, annotation: ManualAnnotation, job: VideoJob, offset: nat, videoStart: int, env: Env)
    requires job.fps > 0
  {
    && InEventWindow(c, annotation, offset, videoStart, job.fps, env)
    && LabelledTaggedWaggle(job.labels, c.waggleId)
    && MatchesPosition(c, annotation, env)
  }

  /** The detections of the recording whose begin time falls in the annotation's window. */
  function WindowStage(annotation: ManualAnnotation, job: VideoJob, offset: nat, videoStart: int, env: Env): (r: seq<Candidate>)
    requires job.fps > 0
    ensures IsSubsequence(r, job.candidates)
    ensures forall i :: 0 <= i < |job.candidates| ==>
      (job.candidates[i] in r <==> InEventWindow(job.candidates[i], annotation, offset, videoStart, job.fps, env))
    ensures forall k :: 0 <= k < |r| ==> r[k] in job.candidates && InEventWindow(r[k], annotation, offset, videoStart, job.fps, env)
    ensures |r| == 0 <==> forall i :: 0 <= i < |job.candidates| ==> !InEventWindow(job.candidates[i], annotation, offset, videoStart, job.fps, env)
  {
    var r := FilteredByTimestamp(job.candidates, videoStart, env.config.timeTolerance, offset + annotation.startFrame, job.fps);
    assert |r| > 0 ==> r[0] in r;
    r
  }

  /** The time-window stage is the selection of the detections in the event's
      window, copies included. */
  lemma WindowStageIsFilter(annotation: ManualAnnotation, job: VideoJob, offset: nat, videoStart: int, env: Env)
    requires job.fps > 0
    ensures WindowStage(annotation, job, offset, videoStart, env)
      == Filter((c: Candidate) => InEventWindow(c, annotation, offset, videoStart, job.fps, env), job.candidates)
  {
    var frame := offset + annotation.startFrame;
    ScaledWindowExact(videoStart, env.config.timeTolerance, frame, job.fps);
    FilterCongruent(
      (c: Candidate) => InWindowScaled(c.timestampBegin, videoStart, env.config.timeTolerance, frame, job.fps),
      (c: Candidate) => InEventWindow(c, annotation, offset, videoStart, job.fps, env),
      job.candidates);
  }

  /** The label and position stages applied to the window's detections: the
      survivors are exactly the recording's detections that pass all three tests. */
  lemma SurvivorsOfFunnel(annotation: ManualAnnotation, job: VideoJob, offset: nat, videoStart: int, env: Env, tagged: seq<Candidate>)
    requires job.fps > 0
    requires TaggedWaggles(WindowStage(annotation, job, offset, videoStart, env), job.labels) == Success(tagged)
    ensures
      var matching := Filter((c: Candidate) => MatchesPosition(c, annotation, env), tagged);
      && IsSubsequence(matching, job.candidates)
      && forall i :: 0 <= i < |job.candidates| ==>
           (job.candidates[i] in matching <==> Survives(job.candidates[i], annotation, job, offset, videoStart, env))
  {
    var inWindow := WindowStage(annotation, job, offset, videoStart, env);
    var matching := Filter((c: Candidate) => MatchesPosition(c, annotation, env), tagged);
    NarrowTwice(job.candidates, inWindow, tagged,
      (c: Candidate) => InEventWindow(c, annotation, offset, videoStart, job.fps, env),
      (c: Candidate) => LabelledTaggedWaggle(job.labels, c.waggleId));
    NarrowTwice(job.candidates, tagged, matching,
      (c: Candidate) => InEventWindow(c, annotation, offset, videoStart, job.fps, env) && LabelledTaggedWaggle(job.labels, c.waggleId),
      (c: Candidate) => MatchesPosition(c, annotation, env));
  }

  /** The survivors of the label and position stages are the selection of the
      recording's detections that pass all three tests: each is kept as many
      times as it is listed, in order. */
  lemma SurvivorsFiltered(annotation: ManualAnnotation, job: VideoJob, offset: nat, videoStart: int, env: Env, tagged: seq<Candidate>)
    requires job.fps > 0
    requires TaggedWaggles(WindowStage(annotation, job, offset, videoStart, env), job.labels) == Success(tagged)
    ensures Filter((c: Candidate) => MatchesPosition(c, annotation, env), tagged)
      == Filter((c: Candidate) => Survives(c, annotation, job, offset, videoStart, env), job.candidates)
  {
    var inWindow := WindowStage(annotation, job, offset, videoStart, env);
    WindowStageIsFilter(annotation, job, offset, videoStart, env);
    TaggedWagglesIsFilter(inWindow, job.labels);
    assert tagged == Filter((c: Candidate) => LabelledTaggedWaggle(job.labels, c.waggleId), inWindow);
    FilterTwice(
      (c: Candidate) => InEventWindow(c, annotation, offset, videoStart, job.fps, env),
      (c: Candidate) => LabelledTaggedWaggle(job.labels, c.waggleId),
      (c: Candidate) => InEventWindow(c, annotation, offset, videoStart, job.fps, env) && LabelledTaggedWaggle(job.labels, c.waggleId),
      job.candidates);
    FilterTwice(
      (c: Candidate) => InEventWindow(c, annotation, offset, videoStart, job.fps, env) && LabelledTaggedWaggle(job.labels, c.waggleId),
      (c: Candidate) => MatchesPosition(c, annotation, env),
      (c: Candidate) => Survives(c, annotation, job, offset, videoStart, env),
      job.candidates);
  }

  /** A detection of the window has several label rows exactly when some
      detection of the recording in the event's window has. */
  lemma DuplicateInWindow(annotation: ManualAnnotation, job: VideoJob, offset: nat, videoStart: int, env: Env)
    requires job.fps > 0
    ensures
      var inWindow := WindowStage(annotation, job, offset, videoStart, env);
      (exists k :: 0 <= k < |inWindow| && |RowsFor(job.labels, inWindow[k].waggleId)| > 1)
      <==> HasDuplicateInWindow(annotation, job, offset, videoStart, env)
  {
    var inWindow := WindowStage(annotation, job, offset, videoStart, env);
    SelectionWitness(inWindow, job.candidates,
      (c: Candidate) => InEventWindow(c, annotation, offset, videoStart, job.fps, env),
      (c: Candidate) => |RowsFor(job.labels, c.waggleId)| > 1);
  }

  /** Some detection in the event's window has several label rows. */
  ghost predicate HasDuplicateInWindow(annotation: ManualAnnotation, job: VideoJob, offset: nat, videoStart: int, env: Env)
    requires job.fps > 0
  {
    exists i :: 0 <= i < |job.candidates|
      && InEventWindow(job.candidates[i], annotation, offset, videoStart, job.fps, env)
      && |RowsFor(job.labels, job.candidates[i].waggleId)| > 1
  }

  /** The funnel once the cut video's offset in its recording is known. `None`:
      no detection fell in the time window. Otherwise the record of the
      annotation with the detections that survived every stage, in detection
      order; a detection in the window with several label rows aborts. */
  function Funnel(annotation: ManualAnnotation, job: VideoJob, offset: nat, videoStart: int, env: Env): (r: Result<Option<MatchRecord>, Fatal>)
    requires job.fps > 0
    ensures r == Success(None) <==>
      forall i :: 0 <= i < |job.candidates| ==> !InEventWindow(job.candidates[i], annotation, offset, videoStart, job.fps, env)
    ensures r.Failure? <==> HasDuplicateInWindow(annotation, job, offset, videoStart, env)
    ensures r.Failure? ==> r.error.DuplicateLabelRows? && |RowsFor(job.labels, r.error.waggleId)| > 1
    ensures r.Success? && r.value.Some? ==>
      && r.value.value.annotation == annotation
      && IsSubsequence(r.value.value.candidates, job.candidates)
      && (forall i :: 0 <= i < |job.candidates| ==>
           (job.candidates[i] in r.value.value.candidates <==> Survives(job.candidates[i], annotation, job, offset, videoStart, env)))
      && r.value.value.candidates == Filter((c: Candidate) => Survives(c, annotation, job, offset, videoStart, env), job.candidates)
  {
    var inWindow := WindowStage(annotation, job, offset, videoStart, env);
    DuplicateInWindow(annotation, job, offset, videoStart, env);
    if |inWindow| == 0 then
      Success(None)
    else
      match TaggedWaggles(inWindow, job.labels)
      case Failure(id) => Failure(DuplicateLabelRows(id))
      case Success(tagged) =>
        SurvivorsOfFunnel(annotation, job, offset, videoStart, env, tagged);
        SurvivorsFiltered(annotation, job, offset, videoStart, env, tagged);
        Success(Some(MatchRecord(annotation, Filter((c: Candidate) => MatchesPosition(c, annotation, env), tagged))))
  }

  /** One annotation: synchronise the frames, then run the funnel. A failed
      synchronisation skips the event, and so does an empty time window; a
      record is produced only past both. A zero frame rate aborts the run. */
  function MatchEvent<F(==)>(annotation: ManualAnnotation, job: VideoJob<F>, videoStart: int, env: Env): (r: Result<Option<MatchRecord>, Fatal>)
    ensures FirstMatchingFrameIndex(job.original, job.cut).Failure? ==> r == Success(None)
    ensures r.Failure? ==>
      && FirstMatchingFrameIndex(job.original, job.cut).Success?
      && (r.error == ZeroFrameRate <==> job.fps == 0)
      && (r.error.DuplicateLabelRows? ==> |RowsFor(job.labels, r.error.waggleId)| > 1)
    ensures r.Success? && r.value.Some? ==> r.value.value.annotation == annotation
    ensures FirstMatchingFrameIndex(job.original, job.cut).Success? && job.fps == 0 ==> r == Failure(ZeroFrameRate)
    ensures
      var sync := FirstMatchingFrameIndex(job.original, job.cut);
      sync.Success? && job.fps > 0 ==>
        && (r == Success(None) <==> forall i :: 0 <= i < |job.candidates| ==> !InEventWindow(job.candidates[i], annotation, sync.value, videoStart, job.fps, env))
        && (r.Failure? <==> HasDuplicateInWindow(annotation, job, sync.value, videoStart, env))
        && (r.Failure? ==> r.error.DuplicateLabelRows? && |RowsFor(job.labels, r.error.waggleId)| > 1)
        && (r.Success? && r.value.Some? ==>
              && (forall i :: 0 <= i < |job.candidates| ==>
                   (job.candidates[i] in r.value.value.candidates <==> Survives(job.candidates[i], annotation, job, sync.value, videoStart, env)))
              && r.value.value.candidates == Filter((c: Candidate) => Survives(c, annotation, job, sync.value, videoStart, env), job.candidates))
  {
    match FirstMatchingFrameIndex(job.original, job.cut)
    case Failure(_) => Success(None)
    case Success(offset) =>
      if job.fps == 0 then Failure(ZeroFrameRate) else Funnel(annotation, job, offset, videoStart, env)
  }

  /** A record of an event exists only past synchronisation with a non-empty
      time window, and it holds exactly the detections that survive every stage,
      in detection order. */
  lemma EventRecord<F>(annotation: ManualAnnotation, job: VideoJob<F>, videoStart: int, env: Env)
    requires MatchEvent(annotation, job, videoStart, env).Success?
    requires MatchEvent(annotation, job, videoStart, env).value.Some?
    ensures
      var record := MatchEvent(annotation, job, videoStart, env).value.value;
      var sync := FirstMatchingFrameIndex(job.original, job.cut);
      && sync.Success?
      && job.fps > 0
      && (exists i :: 0 <= i < |job.candidates| && InEventWindow(job.candidates[i], annotation, sync.value, videoStart, job.fps, env))
      && IsSubsequence(record.candidates, job.candidates)
      && (forall i :: 0 <= i < |job.candidates| ==>
           (job.candidates[i] in record.candidates <==> Survives(job.candidates[i], annotation, job, sync.value, videoStart, env)))
      && record.candidates == Filter((c: Candidate) => Survives(c, annotation, job, sync.value, videoStart, env), job.candidates)
  {
    var sync := FirstMatchingFrameIndex(job.original, job.cut);
    var offset := sync.value;
    assert Funnel(annotation, job, offset, videoStart, env) == MatchEvent(annotation, job, videoStart, env);
  }

  /** The records of a cut video's annotations, in annotation order: skipped
      events leave no record, and the first fatal error aborts. */
  function MatchAnnotations<F(==)>(annotations: seq<ManualAnnotation>, job: VideoJob<F>, videoStart: int, env: Env): (r: Result<seq<MatchRecord>, Fatal>)
    ensures r.Success? <==> forall i :: 0 <= i < |annotations| ==> MatchEvent(annotations[i], job, videoStart, env).Success?
    ensures r.Failure? ==> exists i :: 0 <= i < |annotations| && MatchEvent(annotations[i], job, videoStart, env) == Failure(r.error)
    ensures r.Success? ==> |r.value| <= |annotations|
    ensures r.Success? ==> forall j :: 0 <= j < |r.value| ==>
      exists i :: 0 <= i < |annotations| && MatchEvent(annotations[i], job, videoStart, env) == Success(Some(r.value[j]))
    ensures r.Success? ==> forall i :: 0 <= i < |annotations| && MatchEvent(annotations[i], job, videoStart, env).value.Some? ==>
      MatchEvent(annotations[i], job, videoStart, env).value.value in r.value
    ensures r.Success? ==> (|r.value| == 0 <==> forall i :: 0 <= i < |annotations| ==> MatchEvent(annotations[i], job, videoStart, env).value.None?)
  {
    var events := Events(annotations, job, videoStart, env);
    var r := Gather(events);
    assert r.Success? ==> forall i :: 0 <= i < |annotations| ==> events[i].Success?;
    r
  }

  /** The outcome of every annotation's event, in annotation order. */
  function Events<F(==)>(annotations: seq<ManualAnnotation>, job: VideoJob<F>, videoStart: int, env: Env): (r: seq<Result<Option<MatchRecord>, Fatal>>)
    ensures |r| == |annotations| && forall i :: 0 <= i < |annotations| ==> r[i] == MatchEvent(annotations[i], job, videoStart, env)
  {
    Map((annotation: ManualAnnotation) => MatchEvent(annotation, job, videoStart, env), annotations)
  }

  /** The events of two runs of annotations one after the other. */
  lemma EventsAppend<F>(a: seq<ManualAnnotation>, b: seq<ManualAnnotation>, job: VideoJob<F>, videoStart: int, env: Env)
    ensures Events(a + b, job, videoStart, env) == Events(a, job, videoStart, env) + Events(b, job, videoStart, env)
  {
    MapAppend((annotation: ManualAnnotation) => MatchEvent(annotation, job, videoStart, env), a, b);
  }

  /** Records keep the order of their annotations: matching two runs of
      annotations one after the other gives the records of the first followed
      by those of the second, and a fatal error in the first aborts before the
      second is looked at. */
  lemma RecordsInAnnotationOrder<F>(a: seq<ManualAnnotation>, b: seq<ManualAnnotation>, job: VideoJob<F>, videoStart: int, env: Env)
    ensures MatchAnnotations(a, job, videoStart, env).Failure? ==>
      MatchAnnotations(a + b, job, videoStart, env) == MatchAnnotations(a, job, videoStart, env)
    ensures MatchAnnotations(a, job, videoStart, env).Success? && MatchAnnotations(b, job, videoStart, env).Failure? ==>
      MatchAnnotations(a + b, job, videoStart, env) == MatchAnnotations(b, job, videoStart, env)
    ensures MatchAnnotations(a, job, videoStart, env).Success? && MatchAnnotations(b, job, videoStart, env).Success? ==>
      MatchAnnotations(a + b, job, videoStart, env)
        == Success(MatchAnnotations(a, job, videoStart, env).value + MatchAnnotations(b, job, videoStart, env).value)
  {
    EventsAppend(a, b, job, videoStart, env);
    GatherAppend(Events(a, job, videoStart, env), Events(b, job, videoStart, env));
  }

  /** A single annotation yields its event's record, nothing when the event is
      skipped, or its fatal error. */
  lemma SingleAnnotation<F>(annotation: ManualAnnotation, job: VideoJob<F>, videoStart: int, env: Env)
    ensures MatchAnnotations([annotation], job, videoStart, env) ==
      match MatchEvent(annotation, job, videoStart, env)
      case Failure(e) => Failure(e)
      case Success(None) => Success([])
      case Success(Some(record)) => Success([record])
  {
    assert Events([annotation], job, videoStart, env) == [MatchEvent(annotation, job, videoStart, env)];
    GatherSingle(MatchEvent(annotation, job, videoStart, env));
  }

  /** When the cut video cannot be synchronised with its recording, none of its
      annotations yields a record. */
  lemma UnsynchronisedVideoYieldsNothing<F>(annotations: seq<ManualAnnotation>, job: VideoJob<F>, videoStart: int, env: Env)
    requires FirstMatchingFrameIndex(job.original, job.cut).Failure?
    ensures MatchAnnotations(annotations, job, videoStart, env) == Success([])
  {
    var r := MatchAnnotations(annotations, job, videoStart, env);
    assert forall i :: 0 <= i < |annotations| ==> MatchEvent(annotations[i], job, videoStart, env) == Success(None);
  }

  /** One cut video: the name of its original recording and the records of its
      annotations. A name without `_` and a start time the parser rejects abort
      the run before any annotation is looked at. */
  function MatchVideo<F(==)>(job: VideoJob<F>, env: Env): (r: Result<(string, seq<MatchRecord>), Fatal>)
    ensures '_' !in job.cutFileName ==> r == Failure(MalformedVideoName(job.cutFileName))
    ensures '_' in job.cutFileName ==>
      var text := StartTimestampText(OriginalVideoName(job.cutFileName).value);
      && (env.parseTimestamp(text).None? ==> r == Failure(UnparsableTimestamp(text)))
      && (env.parseTimestamp(text).Some? ==>
            && (r.Success? <==> MatchAnnotations(job.annotations, job, env.parseTimestamp(text).value, env).Success?)
            && (r.Failure? ==> MatchAnnotations(job.annotations, job, env.parseTimestamp(text).value, env) == Failure(r.error)))
    ensures r.Success? ==>
      && OriginalVideoName(job.cutFileName) == Some(r.value.0)
      && var start := env.parseTimestamp(StartTimestampText(r.value.0));
         start.Some? && MatchAnnotations(job.annotations, job, start.value, env) == Success(r.value.1)
  {
    match OriginalVideoName(job.cutFileName)
    case None => Failure(MalformedVideoName(job.cutFileName))
    case Some(name) =>
      var text := StartTimestampText(name);
      match env.parseTimestamp(text)
      case None => Failure(UnparsableTimestamp(text))
      case Some(start) =>
        match MatchAnnotations(job.annotations, job, start, env)
        case Failure(e) => Failure(e)
        case Success(records) => Success((name, records))
  }

  /** Every cut video in turn; the first fatal error aborts the run. */
  function MatchVideos<F(==)>(jobs: seq<VideoJob<F>>, env: Env): (r: Result<seq<(string, seq<MatchRecord>)>, Fatal>)
    ensures r.Success? <==> forall i :: 0 <= i < |jobs| ==> MatchVideo(jobs[i], env).Success?
    ensures r.Success? ==> |r.value| == |jobs| && forall i :: 0 <= i < |jobs| ==> MatchVideo(jobs[i], env) == Success(r.value[i])
    ensures r.Failure? ==> exists i :: 0 <= i < |jobs| && MatchVideo(jobs[i], env) == Failure(r.error) && forall j :: 0 <= j < i ==> MatchVideo(jobs[j], env).Success?
  {
    AllOrFirstFailure(Outcomes(jobs, env))
  }

  /** The outcome of each cut video, in order. */
  function Outcomes<F(==)>(jobs: seq<VideoJob<F>>, env: Env): (r: seq<Result<(string, seq<MatchRecord>), Fatal>>)
    ensures |r| == |jobs| && forall i :: 0 <= i < |jobs| ==> r[i] == MatchVideo(jobs[i], env)
  {
    seq(|jobs|, i requires 0 <= i < |jobs| => MatchVideo(jobs[i], env))
  }

  /** The records gathered so far for a recording. */
  function Get(results: map<string, seq<MatchRecord>>, name: string): seq<MatchRecord>
  {
    if name in results then results[name] else []
  }

  /** All records of the recording `name`, in the order the cut videos came. */
  ghost function Collected(outs: seq<(string, seq<MatchRecord>)>, name: string): seq<MatchRecord>
    decreases |outs|
  {
    if |outs| == 0 then []
    else (if outs[0].0 == name then outs[0].1 else []) + Collected(outs[1..], name)
  }

  /** Some cut video belongs to the recording `name`. */
  ghost predicate Mentions(outs: seq<(string, seq<MatchRecord>)>, name: string)
  {
    exists i :: 0 <= i < |outs| && outs[i].0 == name
  }

  /** The cut video at `i` is the last one of its recording. */
  ghost predicate LastOfRecording(outs: seq<(string, seq<MatchRecord>)>, i: int)
    requires 0 <= i < |outs|
  {
    !Mentions(outs[i + 1..], outs[i].0)
  }

  /** A recording is mentioned by a non-empty list of cut videos exactly when
      it is the first one's or the rest mention it. */
  lemma MentionsHeadOrTail(outs: seq<(string, seq<MatchRecord>)>)
    requires |outs| > 0
    ensures forall n :: Mentions(outs, n) <==> n == outs[0].0 || Mentions(outs[1..], n)
  {
    forall n ensures Mentions(outs, n) <==> n == outs[0].0 || Mentions(outs[1..], n) {
      if Mentions(outs[1..], n) {
        var i :| 0 <= i < |outs[1..]| && outs[1..][i].0 == n;
        assert outs[i + 1].0 == n;
      }
      if Mentions(outs, n) && n != outs[0].0 {
        var i :| 0 <= i < |outs| && outs[i].0 == n;
        assert outs[1..][i - 1].0 == n;
      }
    }
  }

  /** Grouping by recording, each cut video's records added after those already
      there: every record of every cut video is kept. */
  function Accumulate(results: map<string, seq<MatchRecord>>, outs: seq<(string, seq<MatchRecord>)>): (r: map<string, seq<MatchRecord>>)
    ensures forall name :: name in r <==> name in results || Mentions(outs, name)
    ensures forall name :: name in r ==> r[name] == Get(results, name) + Collected(outs, name)
    decreases |outs|
  {
    if |outs| == 0 then
      results
    else
      var name := outs[0].0;
      var next := results[name := Get(results, name) + outs[0].1];
      var r := Accumulate(next, outs[1..]);
      MentionsHeadOrTail(outs);
      r
  }

  /** Grouping by recording as the run does it: each cut video resets the list
      of its recording before adding its own records, so a recording keeps only
      the records of its last cut video. */
  function Overwrite(results: map<string, seq<MatchRecord>>, outs: seq<(string, seq<MatchRecord>)>): (r: map<string, seq<MatchRecord>>)
    ensures forall name :: name in r <==> name in results || Mentions(outs, name)
    ensures forall name :: name in results && !Mentions(outs, name) ==> r[name] == results[name]
    ensures forall i :: 0 <= i < |outs| && LastOfRecording(outs, i) ==> outs[i].0 in r && r[outs[i].0] == outs[i].1
    decreases |outs|
  {
    if |outs| == 0 then
      results
    else
      var name := outs[0].0;
      var r := Overwrite(results[name := outs[0].1], outs[1..]);
      MentionsHeadOrTail(outs);
      forall i | 1 <= i < |outs| && LastOfRecording(outs, i)
        ensures LastOfRecording(outs[1..], i - 1)
      {
        assert outs[1..][i - 1 + 1..] == outs[i + 1..];
      }
      assert LastOfRecording(outs, 0) ==> !Mentions(outs[1..], name);
      r
  }

  /** The run: the records of every cut video, grouped by original recording. */
  function Run<F(==)>(jobs: seq<VideoJob<F>>, env: Env): (r: Result<map<string, seq<MatchRecord>>, Fatal>)
    ensures r.Success? <==> forall i :: 0 <= i < |jobs| ==> MatchVideo(jobs[i], env).Success?
    ensures r.Success? ==> forall name :: name in r.value <==> Mentions(MatchVideos(jobs, env).value, name)
    ensures r.Success? ==> forall name :: name in r.value ==> r.value[name] == Collected(MatchVideos(jobs, env).value, name)
  {
    match MatchVideos(jobs, env)
    case Failure(e) => Failure(e)
    case Success(outs) =>
      assert forall name :: Get(map[], name) == [];
      Success(Accumulate(map[], outs))
  }

  /** The run as written, grouping with `Overwrite`. */
  function RunAsWritten<F(==)>(jobs: seq<VideoJob<F>>, env: Env): (r: Result<map<string, seq<MatchRecord>>, Fatal>)
    ensures r.Success? <==> forall i :: 0 <= i < |jobs| ==> MatchVideo(jobs[i], env).Success?
    ensures r.Success? ==> forall name :: name in r.value <==> Mentions(MatchVideos(jobs, env).value, name)
    ensures r.Success? ==>
      var outs := MatchVideos(jobs, env).value;
      forall i :: 0 <= i < |outs| && LastOfRecording(outs, i) ==> outs[i].0 in r.value && r.value[outs[i].0] == outs[i].1
  {
    match MatchVideos(jobs, env)
    case Failure(e) => Failure(e)
    case Success(outs) => Success(Overwrite(map[], outs))
  }

  /** Two cut videos of the same recording, the first with records: grouping
      as the run does it keeps only the second's records, while grouping that
      adds keeps both. */
  lemma SecondCutOfRecordingDropsFirst(name: string, a: seq<MatchRecord>, b: seq<MatchRecord>)
    requires |a| > 0
    ensures Overwrite(map[], [(name, a), (name, b)])[name] == b
    ensures Accumulate(map[], [(name, a), (name, b)])[name] == a + b
    ensures Overwrite(map[], [(name, a), (name, b)])[name] != Accumulate(map[], [(name, a), (name, b)])[name]
  {
    var outs := [(name, a), (name, b)];
    assert Mentions(outs, name) by {
      assert outs[0].0 == name;
    }
    assert Collected(outs, name) == a + b by {
      assert outs[1..] == [(name, b)];
      assert outs[1..][1..] == [];
      assert Collected(outs[1..], name) == b + Collected([], name);
      assert b + [] == b;
    }
    assert |a + b| > |b|;
  }
}
