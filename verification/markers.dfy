/** Marker tables: timestamped reference points, several rows per timestamp,
    one table per coordinate system. The valid marker set for a detection is
    the most recent one taken at or before it. */
module Markers {
  import opened Wrappers
  import opened Sequences
  import opened Records

  /** One row of a marker table. */
  datatype MarkerRow = MarkerRow(timestamp: int, x: int, y: int)

  /** `m` is the greatest marker timestamp not after `t`. */
  ghost predicate IsLatestAtOrBefore(m: int, table: seq<MarkerRow>, t: int)
  {
    && m <= t
    && (exists i :: 0 <= i < |table| && table[i].timestamp == m)
    && (forall i :: 0 <= i < |table| && table[i].timestamp <= t ==> table[i].timestamp <= m)
  }

  /** At most one timestamp is the latest. */
  lemma LatestUnique(m1: int, m2: int, table: seq<MarkerRow>, t: int)
    requires IsLatestAtOrBefore(m1, table, t) && IsLatestAtOrBefore(m2, table, t)
    ensures m1 == m2
  {
    var i1 :| 0 <= i1 < |table| && table[i1].timestamp == m1;
    var i2 :| 0 <= i2 < |table| && table[i2].timestamp == m2;
  }

  /** The latest marker timestamp at or before `t`, found by scanning the table;
      `None` when every marker set was taken after `t`. */
  function LatestTimestampAtOrBefore(table: seq<MarkerRow>, t: int): (r: Option<int>)
    ensures r.None? <==> forall i :: 0 <= i < |table| ==> table[i].timestamp > t
    ensures r.Some? ==> IsLatestAtOrBefore(r.value, table, t)
    decreases |table|
  {
    if |table| == 0 then
      None
    else
      var rest := LatestTimestampAtOrBefore(table[1..], t);
      var m := table[0].timestamp;
      assert forall i :: 1 <= i < |table| ==> table[i] == table[1..][i - 1];
      if m > t then
        rest
      else if rest.None? || rest.value < m then
        Some(m)
      else
        assert table[1..][0] == table[1];
        rest
  }

  /** The position each row records. */
  function PointsOf(table: seq<MarkerRow>): (points: seq<Point>)
    ensures |points| == |table|
    ensures forall i :: 0 <= i < |table| ==> points[i] == Point(table[i].x, table[i].y)
  {
    seq(|table|, i requires 0 <= i < |table| => Point(table[i].x, table[i].y))
  }

  /** The points of the rows taken at timestamp `m`, in table order. */
  function CoordinatesAt(table: seq<MarkerRow>, m: int): (points: seq<Point>)
    ensures IsSubsequence(points, PointsOf(table))
    ensures forall j :: 0 <= j < |points| ==> exists i :: 0 <= i < |table| && table[i].timestamp == m && points[j] == Point(table[i].x, table[i].y)
    ensures forall i :: 0 <= i < |table| && table[i].timestamp == m ==> Point(table[i].x, table[i].y) in points
    decreases |table|
  {
    if |table| == 0 then
      []
    else
      var rest := CoordinatesAt(table[1..], m);
      assert forall i :: 1 <= i < |table| ==> table[i] == table[1..][i - 1];
      assert PointsOf(table)[1..] == PointsOf(table[1..]);
      if table[0].timestamp == m then
        assert ([Point(table[0].x, table[0].y)] + rest)[1..] == rest;
        [Point(table[0].x, table[0].y)] + rest
      else
        rest
  }

  /** The points at a timestamp are the points of the table's rows at that
      timestamp: one point per row, duplicates included. */
  lemma {:induction false} CoordinatesAtFiltered(table: seq<MarkerRow>, m: int)
    ensures CoordinatesAt(table, m) == PointsOf(Filter((row: MarkerRow) => row.timestamp == m, table))
    decreases |table|
  {
    var p := (row: MarkerRow) => row.timestamp == m;
    if |table| > 0 {
      CoordinatesAtFiltered(table[1..], m);
      var rest := Filter(p, table[1..]);
      if table[0].timestamp == m {
        assert Filter(p, table) == [table[0]] + rest;
        PointsOfCons(table[0], rest);
      } else {
        assert Filter(p, table) == rest;
      }
    }
  }

  /** The points of a table with one more row in front. */
  lemma PointsOfCons(row: MarkerRow, table: seq<MarkerRow>)
    ensures PointsOf([row] + table) == [Point(row.x, row.y)] + PointsOf(table)
  {
    var l, r := PointsOf([row] + table), [Point(row.x, row.y)] + PointsOf(table);
    forall i | 0 <= i < |l|
      ensures l[i] == r[i]
    {
      if i > 0 {
        assert ([row] + table)[i] == table[i - 1];
      }
    }
  }

  /** The marker set valid at `t`: the points of every row carrying the latest
      timestamp at or before `t`, in table order, or `None` when no marker set
      had been taken yet. A returned set is never empty. */
  function MarkerCoordinatesByTimestamp(table: seq<MarkerRow>, t: int): (r: Option<seq<Point>>)
    ensures r.None? <==> forall i :: 0 <= i < |table| ==> table[i].timestamp > t
    ensures forall m :: IsLatestAtOrBefore(m, table, t) ==> r == Some(CoordinatesAt(table, m))
    ensures r.Some? ==> |r.value| > 0
  {
    match LatestTimestampAtOrBefore(table, t)
    case None => None
    case Some(m) =>
      assert forall m' :: IsLatestAtOrBefore(m', table, t) ==> m' == m by {
        forall m' | IsLatestAtOrBefore(m', table, t) ensures m' == m {
          LatestUnique(m', m, table, t);
        }
      }
      var i :| 0 <= i < |table| && table[i].timestamp == m;
      assert Point(table[i].x, table[i].y) in CoordinatesAt(table, m);
      Some(CoordinatesAt(table, m))
  }
}
