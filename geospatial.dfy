/**
 * Geospatial analysis of the notebook helpers: the part of
 * `find_intersections` that turns, river by river, the intersection of the
 * river with the combined basin boundary into at most one record carrying the
 * easternmost crossing point. The geometric intersection itself is an input.
 */
module Geospatial {

  datatype Point = Point(x: real, y: real)

  /** The result of `river.geometry.intersection(outer_boundary)`, as far as
      the selection looks at it: an empty geometry, a single point, a
      multi-point with its parts, or any other geometry type (a line where
      the river runs along the boundary, a mixed collection, ...). */
  datatype Intersection =
    | Empty
    | PointGeom(p: Point)
    | MultiPointGeom(geoms: seq<Point>)
    | OtherGeom

  /** One row of the river table: its `GNIS_Name` and its intersection. */
  datatype River = River(name: string, crossing: Intersection)

  /** One output row: `{"river_name": ..., "geometry": ...}`. */
  datatype Record = Record(riverName: string, geometry: Point)

  /** The crossing points the selection considers: the parts of a
      multi-point, the point itself, and nothing for any other result. */
  function CandidatePoints(c: Intersection): (pts: seq<Point>)
    ensures |pts| > 0 ==> c.PointGeom? || c.MultiPointGeom?
    ensures c.PointGeom? ==> pts == [c.p]
    ensures c.MultiPointGeom? ==> pts == c.geoms
  {
    match c
    case Empty => []
    case PointGeom(p) => [p]
    case MultiPointGeom(geoms) => geoms
    case OtherGeom => []
  }

  /** `max(points, key=lambda p: p.x)`: scanning left to right, a later point
      replaces the current maximum only when its x is strictly larger, so the
      result is the first point of greatest x. */
  function EasternmostIndex(pts: seq<Point>): (k: nat)
    requires |pts| > 0
    ensures k < |pts|
    ensures forall j :: 0 <= j < |pts| ==> pts[j].x <= pts[k].x
    ensures forall j :: 0 <= j < k ==> pts[j].x < pts[k].x
  {
    if |pts| == 1 then 0
    else
      var k := EasternmostIndex(pts[..|pts| - 1]);
      if pts[|pts| - 1].x > pts[k].x then |pts| - 1 else k
  }

  /** The two properties of `EasternmostIndex` pin down a single index. */
  lemma EasternmostIndexUnique(pts: seq<Point>, i: nat)
    requires i < |pts|
    requires forall j :: 0 <= j < |pts| ==> pts[j].x <= pts[i].x
    requires forall j :: 0 <= j < i ==> pts[j].x < pts[i].x
    ensures i == EasternmostIndex(pts)
  {
  }

  /** A river contributes a record exactly when it has a crossing point. */
  predicate HasCrossing(r: River)
    ensures HasCrossing(r) <==> r.crossing.PointGeom? || (r.crossing.MultiPointGeom? && |r.crossing.geoms| > 0)
  {
    |CandidatePoints(r.crossing)| > 0
  }

  /** The record a river with a crossing contributes. */
  function Emitted(r: River): (rec: Record)
    requires HasCrossing(r)
    ensures rec.riverName == r.name
    ensures rec.geometry in CandidatePoints(r.crossing)
  {
    var pts := CandidatePoints(r.crossing);
    Record(r.name, pts[EasternmostIndex(pts)])
  }

  function Contribution(r: River): seq<Record>
  {
    if HasCrossing(r) then [Emitted(r)] else []
  }

  /** The records `find_intersections` collects for `rivers`, one river's
      contribution appended after another's. */
  function Crossings(rivers: seq<River>): (out: seq<Record>)
    ensures |out| <= |rivers|
    ensures rivers == [] ==> out == []
  {
    if rivers == [] then []
    else Crossings(rivers[..|rivers| - 1]) + Contribution(rivers[|rivers| - 1])
  }

  /** The selection loop of `find_intersections`, with the intersection of
      each river with the basin boundary already computed. */
  method FindIntersections(rivers: seq<River>) returns (intersections: seq<Record>)
    ensures intersections == Crossings(rivers)
  {
    intersections := [];
    for i := 0 to |rivers|
      invariant intersections == Crossings(rivers[..i])
    {
      var river := rivers[i];
      var intersection := river.crossing;
      assert rivers[..i + 1][..i] == rivers[..i];
      if !intersection.Empty? {
        var points: seq<Point> := [];
        if intersection.MultiPointGeom? {
          points := intersection.geoms;
        } else if intersection.PointGeom? {
          points := [intersection.p];
        }
        if |points| > 0 {
          var easternmost := points[EasternmostIndex(points)];
          intersections := intersections + [Record(river.name, easternmost)];
        }
      }
    }
    assert rivers[..|rivers|] == rivers;
  }

  // ---------------------------------------------------------------------
  // What the collected records are
  // ---------------------------------------------------------------------

  /** Records compose river by river. */
  lemma {:induction false} CrossingsAppend(a: seq<River>, b: seq<River>)
    ensures Crossings(a + b) == Crossings(a) + Crossings(b)
  {
    if b == [] {
      assert a + b == a;
    } else {
      var n := |b| - 1;
      assert (a + b)[..|a + b| - 1] == a + b[..n];
      assert (a + b)[|a + b| - 1] == b[n];
      CrossingsAppend(a, b[..n]);
    }
  }

  lemma CrossingsSingle(r: River)
    ensures Crossings([r]) == Contribution(r)
  {
    assert [r][..0] == [];
  }

  /** A river whose intersection is empty or is neither a point nor a
      multi-point leaves the records of the others as they are. */
  lemma RiverWithoutCrossingDropped(before: seq<River>, r: River, after: seq<River>)
    requires !HasCrossing(r)
    ensures Crossings(before + [r] + after) == Crossings(before + after)
  {
    CrossingsSingle(r);
    assert Crossings([r]) == [];
    CrossingsAppend(before + [r], after);
    CrossingsAppend(before, [r]);
    CrossingsAppend(before, after);
  }

  /** A river with a crossing adds exactly its own record, in its place. */
  lemma RiverWithCrossingEmitted(before: seq<River>, r: River, after: seq<River>)
    requires HasCrossing(r)
    ensures Crossings(before + [r] + after) == Crossings(before) + [Emitted(r)] + Crossings(after)
  {
    CrossingsSingle(r);
    assert Crossings([r]) == [Emitted(r)];
    CrossingsAppend(before + [r], after);
    CrossingsAppend(before, [r]);
  }

  /** The position in the input of the river each record comes from. */
  ghost function Origins(rivers: seq<River>): seq<nat>
  {
    if rivers == [] then []
    else
      var n := |rivers| - 1;
      Origins(rivers[..n]) + (if HasCrossing(rivers[n]) then [n] else [])
  }

  /** The records are, in input order, exactly those of the rivers with a
      crossing: the origins are strictly increasing positions, every river
      with a crossing is among them, and each record is its river's. */
  ghost predicate OriginsExplain(rivers: seq<River>, idx: seq<nat>)
  {
    && |idx| == |Crossings(rivers)|
    && (forall k :: 0 <= k < |idx| ==>
          idx[k] < |rivers| && HasCrossing(rivers[idx[k]]) && Crossings(rivers)[k] == Emitted(rivers[idx[k]]))
    && (forall k, l :: 0 <= k < l < |idx| ==> idx[k] < idx[l])
    && (forall i :: 0 <= i < |rivers| && HasCrossing(rivers[i]) ==> i in idx)
  }

  lemma {:induction false} CrossingsInInputOrder(rivers: seq<River>)
    ensures OriginsExplain(rivers, Origins(rivers))
  {
    if rivers != [] {
      var n := |rivers| - 1;
      var prefix := rivers[..n];
      CrossingsInInputOrder(prefix);
      var pre := Origins(prefix);
      var idx := Origins(rivers);
      var out := Crossings(rivers);
      assert out == Crossings(prefix) + Contribution(rivers[n]);
      forall k | 0 <= k < |pre|
        ensures idx[k] < n && HasCrossing(rivers[idx[k]]) && out[k] == Emitted(rivers[idx[k]])
      {
        assert idx[k] == pre[k] && prefix[pre[k]] == rivers[pre[k]];
      }
      if HasCrossing(rivers[n]) {
        assert idx == pre + [n];
        assert out[|pre|] == Emitted(rivers[n]);
      } else {
        assert idx == pre;
      }
      forall i | 0 <= i < n && HasCrossing(rivers[i]) ensures i in idx {
        assert prefix[i] == rivers[i];
        assert i in pre;
      }
    }
  }

  /** `p` is the first of `pts` whose x is the largest. */
  ghost predicate FirstEasternmost(pts: seq<Point>, p: Point)
  {
    exists j :: 0 <= j < |pts| && pts[j] == p &&
      (forall q :: 0 <= q < |pts| ==> pts[q].x <= pts[j].x) &&
      (forall q :: 0 <= q < j ==> pts[q].x < pts[j].x)
  }

  /** Each record names its river and carries one of that river's crossing
      points whose x is the largest, the first such point on ties. */
  lemma RecordIsEasternmostCrossing(rivers: seq<River>, k: nat)
    requires k < |Crossings(rivers)|
    ensures |Origins(rivers)| == |Crossings(rivers)| && Origins(rivers)[k] < |rivers|
    ensures var river := rivers[Origins(rivers)[k]];
      Crossings(rivers)[k].riverName == river.name &&
      FirstEasternmost(CandidatePoints(river.crossing), Crossings(rivers)[k].geometry)
  {
    CrossingsInInputOrder(rivers);
    var pts := CandidatePoints(rivers[Origins(rivers)[k]].crossing);
    var j := EasternmostIndex(pts);
    assert pts[j] == Crossings(rivers)[k].geometry;
  }
}
