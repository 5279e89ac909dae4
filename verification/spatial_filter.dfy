/** The spatial stage: the hand-marked start position, carried into the
    detector's coordinate system, must lie within a per-axis pixel tolerance of
    the detection's region-of-interest centre. */
module SpatialFilter {
  import opened Wrappers
  import opened Records
  import opened Markers

  /** The HD camera's frame size (`HD_CAM_RESOLUTION`); the un-rotation uses the second value. */
  const HdCamResolution: (int, int) := (3520, 4608)

  /** The offset the detector's doubled padding removed from each axis. */
  const PaddingOffset: int := 125

  /** The 90-degree rotation the annotation tool applied to HD coordinates. */
  function Rotate(p: Point): Point
  {
    Point(HdCamResolution.1 - p.y, p.x)
  }

  /** Reverses the annotation tool's rotation. */
  function Unrotate(p: Point): (r: Point)
    ensures Rotate(r) == p
  {
    Point(p.y, HdCamResolution.1 - p.x)
  }

  /** Un-rotating a rotated point gives the point back. */
  lemma UnrotateUndoesRotate(p: Point)
    ensures Unrotate(Rotate(p)) == p
  {
  }

  /** Un-rotating twice is a half turn: it fixes only the centre point. */
  lemma UnrotateTwice(p: Point)
    ensures Unrotate(Unrotate(p)) == p <==> p == Point(HdCamResolution.1 / 2, HdCamResolution.1 / 2)
  {
  }

  /** Adds back the padding offset on both axes. */
  function FixPaddingError(p: Point): (r: Point)
    ensures r.x > p.x
    ensures r.x - r.y == p.x - p.y
    ensures ChebyshevDistance(p, r) == PaddingOffset
  {
    Point(p.x + PaddingOffset, p.y + PaddingOffset)
  }

  function Abs(n: int): nat
  {
    if n < 0 then -n else n
  }

  /** The larger of the two per-axis distances. */
  function ChebyshevDistance(a: Point, b: Point): nat
  {
    var dx := Abs(a.x - b.x);
    var dy := Abs(a.y - b.y);
    if dx < dy then dy else dx
  }

  /** The points are within `tolerance` of each other on each axis separately:
      `b` lies in the closed square of half-width `tolerance` around `a`. */
  predicate IsAdjacent(a: Point, b: Point, tolerance: int)
    ensures IsAdjacent(a, b, tolerance) <==>
      a.x - tolerance <= b.x <= a.x + tolerance && a.y - tolerance <= b.y <= a.y + tolerance
    ensures IsAdjacent(a, b, tolerance) <==> ChebyshevDistance(a, b) <= tolerance
  {
    Abs(a.x - b.x) <= tolerance && Abs(a.y - b.y) <= tolerance
  }

  /** Adjacency does not depend on the order of the points. */
  lemma AdjacencySymmetric(a: Point, b: Point, tolerance: int)
    ensures IsAdjacent(a, b, tolerance) == IsAdjacent(b, a, tolerance)
  {
  }

  /** Exactly the tolerance away on both axes is adjacent; one more on one axis is not. */
  lemma AdjacencyEdge(a: Point, tolerance: nat)
    ensures IsAdjacent(a, Point(a.x + tolerance, a.y + tolerance), tolerance)
    ensures !IsAdjacent(a, Point(a.x + tolerance + 1, a.y), tolerance)
  {
  }

  /** Maps a point from the HD camera's frame into the detector's frame, fitted
      to the HD and detector marker sets (in that order). */
  type Transform = (seq<Point>, seq<Point>, Point) -> Point

  /** The per-stage settings of the spatial check. */
  datatype SpatialSettings = SpatialSettings(tolerance: int, fixPadding: bool, undoRotation: bool)

  /** Whether a detection lies where the run was marked by hand. Both marker
      sets valid at the detection's begin time are needed; without either the
      check fails. The hand-marked start position, un-rotated first if asked,
      is carried into the detector's frame and compared with the detection's
      region centre, shifted by the padding offset if asked. */
  predicate IsMatchingCoordinates(
    candidate: Candidate, annotation: ManualAnnotation,
    hdMarkers: seq<MarkerRow>, wddMarkers: seq<MarkerRow>,
    settings: SpatialSettings, transform: Transform)
    ensures IsMatchingCoordinates(candidate, annotation, hdMarkers, wddMarkers, settings, transform) ==>
      && (exists i :: 0 <= i < |hdMarkers| && hdMarkers[i].timestamp <= candidate.timestampBegin)
      && (exists i :: 0 <= i < |wddMarkers| && wddMarkers[i].timestamp <= candidate.timestampBegin)
  {
    var wdd := MarkerCoordinatesByTimestamp(wddMarkers, candidate.timestampBegin);
    var hd := MarkerCoordinatesByTimestamp(hdMarkers, candidate.timestampBegin);
    if wdd.None? || hd.None? then
      false
    else
      var manual := if settings.undoRotation then Unrotate(annotation.startPosition) else annotation.startPosition;
      var detected := if settings.fixPadding then FixPaddingError(candidate.roiCenter) else candidate.roiCenter;
      IsAdjacent(transform(hd.value, wdd.value, manual), detected, settings.tolerance)
  }

  /** The padding fix is exactly a shift of the region centre by the offset on
      both axes; nothing else about the check changes. */
  lemma PaddingFixShiftsCentre(
    candidate: Candidate, annotation: ManualAnnotation,
    hdMarkers: seq<MarkerRow>, wddMarkers: seq<MarkerRow>,
    settings: SpatialSettings, transform: Transform)
    ensures
      var shifted := candidate.(roiCenter := Point(candidate.roiCenter.x + PaddingOffset, candidate.roiCenter.y + PaddingOffset));
      IsMatchingCoordinates(candidate, annotation, hdMarkers, wddMarkers, settings.(fixPadding := true), transform)
      == IsMatchingCoordinates(shifted, annotation, hdMarkers, wddMarkers, settings.(fixPadding := false), transform)
  {
  }

  /** Undoing the rotation is exactly un-rotating the hand-marked start position
      before it is transformed; nothing else about the check changes. */
  lemma UndoRotationBeforeTransform(
    candidate: Candidate, annotation: ManualAnnotation,
    hdMarkers: seq<MarkerRow>, wddMarkers: seq<MarkerRow>,
    settings: SpatialSettings, transform: Transform)
    ensures
      var unrotated := annotation.(startPosition := Unrotate(annotation.startPosition));
      IsMatchingCoordinates(candidate, annotation, hdMarkers, wddMarkers, settings.(undoRotation := true), transform)
      == IsMatchingCoordinates(candidate, unrotated, hdMarkers, wddMarkers, settings.(undoRotation := false), transform)
  {
  }

  /** A detection region centred at (500, 500) whose start position maps to
      (600, 600) lies within 100 pixels with the padding fix (625, 625) and, the
      bound being inclusive, also without it. */
  lemma PaddingScenario()
    ensures IsAdjacent(Point(600, 600), FixPaddingError(Point(500, 500)), 100)
    ensures IsAdjacent(Point(600, 600), Point(500, 500), 100)
    ensures !IsAdjacent(Point(600, 600), Point(499, 500), 100)
  {
  }
}
