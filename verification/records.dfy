/** The entities the matcher reads: detections, manual annotations and the
    records it produces. Timestamps are integer microsecond ticks on one
    timezone-naive clock; positions are integer pixels. */
module Records {

  /** A position in pixels. */
  datatype Point = Point(x: int, y: int)

  /** One automatically detected waggle run: its detection id, the time its
      waggle phase began, and the centre of its region of interest (in the
      detector's frame, possibly off by the padding defect). */
  datatype Candidate = Candidate(waggleId: string, timestampBegin: int, roiCenter: Point)

  /** One manually annotated waggle run: its index within the dance, the frame of
      the cut video where it starts, and the two positions marked by hand (in the
      HD camera's frame). */
  datatype ManualAnnotation = ManualAnnotation(
    waggleIndex: int,
    startFrame: int,
    startPosition: Point,
    thoraxPosition: Point)

  /** One output entry: an annotation with the detections that survived every stage. */
  datatype MatchRecord = MatchRecord(annotation: ManualAnnotation, candidates: seq<Candidate>)
}
