/** The time-window stage: detections whose waggle began within a tolerance of
    the moment the annotated run is expected, given where the cut video starts
    in its recording. */
module TemporalFilter {
  import opened Sequences
  import opened Records

  /** Clock resolution: timestamps and tolerances count microseconds. */
  const TicksPerSecond: int := 1_000_000

  /** When the annotated run began: `startFrame` frames at `fps` frames per
      second after the recording started, exactly. */
  ghost function ExpectedTime(videoStart: int, startFrame: int, fps: int): real
    requires fps > 0
  {
    videoStart as real + (startFrame * TicksPerSecond) as real / fps as real
  }

  /** `t` lies in the closed window of half-width `delta` around the expected time. */
  ghost predicate InWindow(t: int, videoStart: int, delta: int, startFrame: int, fps: int)
    requires fps > 0
  {
    ExpectedTime(videoStart, startFrame, fps) - delta as real
      <= t as real
      <= ExpectedTime(videoStart, startFrame, fps) + delta as real
  }

  /** The same window test in integers, both sides scaled by the frame rate. */
  predicate InWindowScaled(t: int, videoStart: int, delta: int, startFrame: int, fps: int)
  {
    var offset := startFrame * TicksPerSecond;
    (videoStart - delta) * fps + offset <= t * fps <= (videoStart + delta) * fps + offset
  }

  /** Scaling by a positive frame rate does not change the outcome of the test. */
  lemma ScaledWindowExact(videoStart: int, delta: int, startFrame: int, fps: int)
    requires fps > 0
    ensures forall t :: InWindowScaled(t, videoStart, delta, startFrame, fps) <==> InWindow(t, videoStart, delta, startFrame, fps)
  {
    forall t
      ensures InWindowScaled(t, videoStart, delta, startFrame, fps) <==> InWindow(t, videoStart, delta, startFrame, fps)
    {
      var f := fps as real;
      var offset := startFrame * TicksPerSecond;
      var e := offset as real / f;
      assert e * f == offset as real;
      CastProduct(videoStart - delta, fps);
      CastProduct(videoStart + delta, fps);
      CastProduct(t, fps);
      assert ((videoStart - delta) * fps + offset) as real == ((videoStart - delta) as real + e) * f;
      assert ((videoStart + delta) * fps + offset) as real == ((videoStart + delta) as real + e) * f;
      ScaleBound((videoStart - delta) as real + e, t as real, f);
      ScaleBound(t as real, (videoStart + delta) as real + e, f);
    }
  }

  /** Converting a product to a real is the product of the converted factors. */
  lemma CastProduct(a: int, b: int)
    ensures (a * b) as real == a as real * b as real
  {
  }

  /** Multiplying both sides by a positive number keeps `<=`. */
  lemma ScaleBound(a: real, b: real, f: real)
    requires f > 0.0
    ensures a <= b <==> a * f <= b * f
  {
  }

  /** The detections whose begin time lies in the window, in their original order. */
  function FilteredByTimestamp(candidates: seq<Candidate>, videoStart: int, delta: int, startFrame: int, fps: int): (r: seq<Candidate>)
    requires fps > 0
    ensures IsSubsequence(r, candidates)
    ensures forall i :: 0 <= i < |r| ==> InWindow(r[i].timestampBegin, videoStart, delta, startFrame, fps)
    ensures forall i :: 0 <= i < |candidates| ==>
      (candidates[i] in r <==> InWindow(candidates[i].timestampBegin, videoStart, delta, startFrame, fps))
  {
    ScaledWindowExact(videoStart, delta, startFrame, fps);
    Filter((c: Candidate) => InWindowScaled(c.timestampBegin, videoStart, delta, startFrame, fps), candidates)
  }

  /** Both edges of the window belong to it, and one tick beyond either edge does not. */
  lemma WindowEdgesInclusive(videoStart: int, delta: int, startFrame: int, fps: int)
    requires fps > 0 && delta >= 0
    requires (startFrame * TicksPerSecond) % fps == 0
    ensures
      var expected := videoStart + startFrame * TicksPerSecond / fps;
      && InWindow(expected - delta, videoStart, delta, startFrame, fps)
      && InWindow(expected + delta, videoStart, delta, startFrame, fps)
      && !InWindow(expected - delta - 1, videoStart, delta, startFrame, fps)
      && !InWindow(expected + delta + 1, videoStart, delta, startFrame, fps)
  {
    var q := startFrame * TicksPerSecond / fps;
    assert q * fps == startFrame * TicksPerSecond;
    assert (startFrame * TicksPerSecond) as real / fps as real == q as real;
  }

  /** A run annotated at frame 100 of a clip that starts at frame 50 of a 15 fps
      recording is expected 10 s after the recording starts; with a half-second
      tolerance a detection at exactly 10 s is kept and one at 10.6 s is not. */
  lemma TenSecondScenario(videoStart: int, id1: string, id2: string, roi: Point)
    ensures
      var onTime := Candidate(id1, videoStart + 10 * TicksPerSecond, roi);
      var late := Candidate(id2, videoStart + 10 * TicksPerSecond + 600_000, roi);
      FilteredByTimestamp([onTime, late], videoStart, 500_000, 50 + 100, 15) == [onTime]
  {
    var onTime := Candidate(id1, videoStart + 10 * TicksPerSecond, roi);
    var late := Candidate(id2, videoStart + 10 * TicksPerSecond + 600_000, roi);
    assert [onTime, late][1..] == [late];
    assert InWindowScaled(onTime.timestampBegin, videoStart, 500_000, 150, 15);
    assert !InWindowScaled(late.timestampBegin, videoStart, 500_000, 150, 15);
  }
}
