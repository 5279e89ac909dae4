/** Frame synchronisation: where in the original recording the cut video
    starts, found by comparing frames for exact equality. */
module FrameSync {
  import opened Wrappers

  /** A video as the decoder sees it: either it cannot be opened, or it yields
      its frames in order. Frames are compared only for equality. */
  datatype Video<F> = Unopenable | Opened(frames: seq<F>)

  /** Which video a failure concerns. */
  datatype Role = Cut | Original

  /** Why synchronisation failed. */
  datatype SyncError =
    | CannotOpen(role: Role)
    | NoFrame
    | NoMatchingFrame

  /** The first frame of a video; raises when it cannot be opened or has no frame. */
  function StartingFrame<F>(video: Video<F>): (r: Result<F, SyncError>)
    ensures r.Success? <==> video.Opened? && |video.frames| > 0
    ensures r.Success? ==> r.value == video.frames[0]
    ensures video.Unopenable? ==> r == Failure(CannotOpen(Cut))
    ensures video.Opened? && |video.frames| == 0 ==> r == Failure(NoFrame)
  {
    match video
    case Unopenable => Failure(CannotOpen(Cut))
    case Opened(frames) => if |frames| == 0 then Failure(NoFrame) else Success(frames[0])
  }

  /** Reads frames from index `index` on and returns the index of the first one
      equal to `target`, or `None` when the frames run out first. */
  function ScanFrom<F(==)>(frames: seq<F>, target: F, index: nat): (r: Option<nat>)
    requires index <= |frames|
    ensures r.None? <==> target !in frames[index..]
    ensures r.Some? ==> index <= r.value < |frames| && frames[r.value] == target
    ensures r.Some? ==> target !in frames[index..r.value]
    decreases |frames| - index
  {
    if index == |frames| then
      None
    else if frames[index] == target then
      assert frames[index..index] == [];
      Some(index)
    else
      var r := ScanFrom(frames, target, index + 1);
      assert frames[index..] == [frames[index]] + frames[index + 1..];
      assert r.Some? ==> frames[index..r.value] == [frames[index]] + frames[index + 1..r.value];
      r
  }

  /** The index of the frame of the original recording that equals the cut
      video's first frame, the first such one. The cut video is read first: it
      must open and hold a frame; then the original must open and hold a frame
      equal to it. */
  function FirstMatchingFrameIndex<F(==)>(original: Video<F>, cut: Video<F>): (r: Result<nat, SyncError>)
    ensures r.Success? <==>
      cut.Opened? && |cut.frames| > 0 && original.Opened? && cut.frames[0] in original.frames
    ensures r.Success? ==>
      && r.value < |original.frames|
      && original.frames[r.value] == cut.frames[0]
      && forall j :: 0 <= j < r.value ==> original.frames[j] != cut.frames[0]
    ensures cut.Unopenable? ==> r == Failure(CannotOpen(Cut))
    ensures cut.Opened? && |cut.frames| == 0 ==> r == Failure(NoFrame)
    ensures cut.Opened? && |cut.frames| > 0 && original.Unopenable? ==> r == Failure(CannotOpen(Original))
    ensures cut.Opened? && |cut.frames| > 0 && original.Opened? && cut.frames[0] !in original.frames ==>
      r == Failure(NoMatchingFrame)
  {
    match StartingFrame(cut)
    case Failure(e) => Failure(e)
    case Success(first) =>
      match original
      case Unopenable => Failure(CannotOpen(Original))
      case Opened(frames) =>
        assert frames[0..] == frames;
        match ScanFrom(frames, first, 0)
        case None => Failure(NoMatchingFrame)
        case Some(i) =>
          assert forall j :: 0 <= j < i ==> frames[j] in frames[0..i];
          Success(i)
  }
}
