/** Route construction of src/App.tsx: every bus gets a copy of one fixed
    staircase polyline, moved down by 50 units per bus so the routes never overlap. */
module RouteModel {
  import opened ClientState
  import opened PathGeometry

  /** The vertical distance between the routes of consecutive buses. */
  const ROUTE_SPACING: int := 50

  /** The route template: a staircase of nine axis-aligned steps of length 10. */
  const Template: seq<Point> := [
    Point(0, 0), Point(10, 0), Point(10, 10), Point(20, 10), Point(20, 20),
    Point(30, 20), Point(30, 30), Point(40, 30), Point(40, 40), Point(50, 40)
  ]

  /** The route moved down by `dy`: every waypoint keeps its x and gains `dy` in y. */
  function Translate(path: seq<Point>, dy: int): (moved: seq<Point>)
    ensures |moved| == |path|
  {
    seq(|path|, k requires 0 <= k < |path| => Point(path[k].x, path[k].y + dy))
  }

  /** Moving a route back by the same amount gives the original route. */
  lemma TranslateInverse(path: seq<Point>, dy: int)
    ensures Translate(Translate(path, dy), -dy) == path
  {
    var back := Translate(Translate(path, dy), -dy);
    assert forall k :: 0 <= k < |path| ==> back[k] == path[k];
  }

  /** Moving a route vertically keeps it axis-aligned, keeps its segments
      non-degenerate and keeps every segment length. */
  lemma TranslatePreservesSegments(path: seq<Point>, dy: int)
    requires Aligned(path)
    ensures Aligned(Translate(path, dy))
    ensures ValidRoute(path) ==> ValidRoute(Translate(path, dy))
    ensures SegmentLengths(Translate(path, dy)) == SegmentLengths(path)
  {
    var moved := Translate(path, dy);
    forall k | 0 <= k < |path| - 1
      ensures AxisAligned(moved[k], moved[k + 1])
      ensures moved[k] == moved[k + 1] <==> path[k] == path[k + 1]
    {
      ShiftSegment(path, dy, k);
    }
    assert Aligned(moved);
    forall k | 0 <= k < |path| - 1
      ensures SegmentLengths(moved)[k] == SegmentLengths(path)[k]
    {
      ShiftSegment(path, dy, k);
      SegmentLengthAt(path, k);
      SegmentLengthAt(moved, k);
    }
  }

  /** Segment `k` of a shifted route is segment `k` of the route, shifted: it
      stays axis-aligned, as long, and degenerate exactly when the original is. */
  lemma ShiftSegment(path: seq<Point>, dy: int, k: nat)
    requires Aligned(path) && k < |path| - 1
    ensures var moved := Translate(path, dy);
      && AxisAligned(moved[k], moved[k + 1])
      && Dist(moved[k], moved[k + 1]) == Dist(path[k], path[k + 1])
      && (moved[k] == moved[k + 1] <==> path[k] == path[k + 1])
  {
    var moved := Translate(path, dy);
    assert moved[k] == Point(path[k].x, path[k].y + dy);
    assert moved[k + 1] == Point(path[k + 1].x, path[k + 1].y + dy);
  }

  /** A route moved down by `dy` draws its block `dy` lower and nowhere else. */
  lemma TranslateMovesBlock(path: seq<Point>, dy: int, percent: nat)
    requires ValidRoute(path)
    ensures ValidRoute(Translate(path, dy))
    ensures BlockPosition(Translate(path, dy), percent)
         == RealPoint(BlockPosition(path, percent).x, BlockPosition(path, percent).y + dy as real)
  {
    TranslatePreservesSegments(path, dy);
    var lens := SegmentLengths(path);
    PointAtTranslate(path, lens, Search(lens, TargetLength(percent, Sum(lens))), dy);
  }

  /** The point a given distance along a given segment moves with the route. */
  lemma PointAtTranslate(path: seq<Point>, lens: seq<nat>, loc: Location, dy: int)
    requires |lens| == |path| - 1 && Positive(lens) && loc.segment < |lens|
    ensures PointAt(Translate(path, dy), lens, loc)
         == RealPoint(PointAt(path, lens, loc).x, PointAt(path, lens, loc).y + dy as real)
  {
    var moved := Translate(path, dy);
    assert moved[loc.segment] == Point(path[loc.segment].x, path[loc.segment].y + dy);
    assert moved[loc.segment + 1] == Point(path[loc.segment + 1].x, path[loc.segment + 1].y + dy);
    LerpTranslate(path[loc.segment], path[loc.segment + 1], dy, loc.offset / lens[loc.segment] as real);
  }

  lemma LerpTranslate(a: Point, b: Point, dy: int, t: real)
    ensures Lerp(Point(a.x, a.y + dy), Point(b.x, b.y + dy), t)
         == RealPoint(Lerp(a, b, t).x, Lerp(a, b, t).y + dy as real)
  {
    var moved, orig := Lerp(Point(a.x, a.y + dy), Point(b.x, b.y + dy), t), Lerp(a, b, t);
    var t1 := ((b.y + dy) - (a.y + dy)) as real;
    var t2 := (b.y - a.y) as real;
    assert t1 == t2;
    assert t1 * t == t2 * t;
    assert moved.x == orig.x;
    assert moved.y == (a.y + dy) as real + t1 * t;
    assert orig.y == a.y as real + t2 * t;
    assert (a.y + dy) as real == a.y as real + dy as real;
  }

  /** The template is a drawable route: ten waypoints, nine segments of length
      10 each, 90 in all. */
  lemma TemplateSegments()
    ensures ValidRoute(Template)
    ensures SegmentLengths(Template) == [10, 10, 10, 10, 10, 10, 10, 10, 10]
    ensures Sum(SegmentLengths(Template)) == 90
  {
    TemplateIsRoute();
    TemplateLengths();
    SumOfEqual([10, 10, 10, 10, 10, 10, 10, 10, 10], 10);
  }

  lemma TemplateLengths()
    ensures SegmentLengths(Template) == [10, 10, 10, 10, 10, 10, 10, 10, 10]
  {
    var lens := SegmentLengths(Template);
    forall k | 0 <= k < 9 ensures lens[k] == 10 {
      TemplateStep(k);
    }
  }

  lemma TemplateIsRoute()
    ensures ValidRoute(Template)
  {
    forall k | 0 <= k < |Template| - 1
      ensures AxisAligned(Template[k], Template[k + 1]) && Template[k] != Template[k + 1]
    {
      TemplateStair(k);
    }
  }

  lemma TemplateStep(k: nat)
    requires k < 9
    ensures ValidRoute(Template) && SegmentLengths(Template)[k] == 10
  {
    TemplateIsRoute();
    TemplateStair(k);
    SegmentLengthAt(Template, k);
  }

  /** The template is a staircase: each waypoint lies 10 to the right of the
      one before it, or 10 below it. */
  lemma TemplateStair(k: nat)
    requires k < |Template| - 1
    ensures || Template[k + 1] == Point(Template[k].x + 10, Template[k].y)
            || Template[k + 1] == Point(Template[k].x, Template[k].y + 10)
  {
    if k == 0 { assert Template[0] == Point(0, 0) && Template[1] == Point(10, 0); }
    else if k == 1 { assert Template[1] == Point(10, 0) && Template[2] == Point(10, 10); }
    else if k == 2 { assert Template[2] == Point(10, 10) && Template[3] == Point(20, 10); }
    else if k == 3 { assert Template[3] == Point(20, 10) && Template[4] == Point(20, 20); }
    else if k == 4 { assert Template[4] == Point(20, 20) && Template[5] == Point(30, 20); }
    else if k == 5 { assert Template[5] == Point(30, 20) && Template[6] == Point(30, 30); }
    else if k == 6 { assert Template[6] == Point(30, 30) && Template[7] == Point(40, 30); }
    else if k == 7 { assert Template[7] == Point(40, 30) && Template[8] == Point(40, 40); }
    else { assert Template[8] == Point(40, 40) && Template[9] == Point(50, 40); }
  }

  /** A sequence of `n` equal lengths `c` sums to `n * c`. */
  lemma {:induction false} SumOfEqual(s: seq<nat>, c: nat)
    requires forall k :: 0 <= k < |s| ==> s[k] == c
    ensures Sum(s) == |s| * c
  {
    if s != [] {
      SumOfEqual(s[1..], c);
    }
  }

  /** The route-building loop: one route per key, in key order. */
  method BuildRoutes(busKeys: seq<string>, buses: map<string, Bus>) returns (allCoordinates: seq<BusCoordinates>)
    requires forall i :: 0 <= i < |busKeys| ==> busKeys[i] in buses
    ensures |allCoordinates| == |busKeys|
    ensures forall i :: 0 <= i < |busKeys| ==>
      && allCoordinates[i].uuid == busKeys[i]
      && allCoordinates[i].isActive == buses[busKeys[i]].isActive
      && |allCoordinates[i].coordinates| == |Template|
      && forall k :: 0 <= k < |Template| ==>
           allCoordinates[i].coordinates[k] == Point(Template[k].x, Template[k].y + i * ROUTE_SPACING)
  {
    allCoordinates := [];
    for i := 0 to |busKeys|
      invariant |allCoordinates| == i
      invariant forall j :: 0 <= j < i ==>
        && allCoordinates[j].uuid == busKeys[j]
        && allCoordinates[j].isActive == buses[busKeys[j]].isActive
        && allCoordinates[j].coordinates == Translate(Template, j * ROUTE_SPACING)
    {
      var busCoordinates := Translate(Template, i * ROUTE_SPACING);
      allCoordinates := allCoordinates + [BusCoordinates(busKeys[i], buses[busKeys[i]].isActive, busCoordinates)];
    }
  }

  /** Every built route can be drawn and is 90 long. */
  lemma RoutesAreDrawable(i: nat)
    ensures ValidRoute(Translate(Template, i * ROUTE_SPACING))
    ensures Sum(SegmentLengths(Translate(Template, i * ROUTE_SPACING))) == 90
  {
    TemplateSegments();
    TranslatePreservesSegments(Template, i * ROUTE_SPACING);
  }

  /** Routes of different buses never touch: every waypoint of an earlier route
      lies strictly above every waypoint of a later one. */
  lemma RoutesSeparated(i: nat, j: nat)
    requires i < j
    ensures forall a, b :: 0 <= a < |Template| && 0 <= b < |Template| ==>
      Translate(Template, i * ROUTE_SPACING)[a].y < Translate(Template, j * ROUTE_SPACING)[b].y
  {
    var upper, lower := Translate(Template, i * ROUTE_SPACING), Translate(Template, j * ROUTE_SPACING);
    assert forall a :: 0 <= a < |Template| ==> 0 <= Template[a].y <= 40;
    assert forall a :: 0 <= a < |Template| ==> upper[a].y == Template[a].y + i * ROUTE_SPACING;
    assert forall b :: 0 <= b < |Template| ==> lower[b].y == Template[b].y + j * ROUTE_SPACING;
    assert i * ROUTE_SPACING + ROUTE_SPACING <= j * ROUTE_SPACING;
  }

  /** A `percent` above 1000 is not drawn past the end of the route: the walk
      stops with the index clamped to the last segment while the accumulated
      length stays at 90, so 1010 on the template lands 0.9 into the last segment. */
  lemma OvershootOnTemplate()
    ensures BlockPosition(Template, 1010) == RealPoint(35.9, 35.0)
  {
    TemplateSegments();
    calc {
      BlockPosition(Template, 1010);
    == { OvershootSearch(); }
      Offset(PointAt(Template, [10, 10, 10, 10, 10, 10, 10, 10, 10], Location(8, 0.9)));
    == { OvershootPoint(); }
      RealPoint(35.9, 35.0);
    }
  }

  lemma OvershootSearch()
    ensures Search([10, 10, 10, 10, 10, 10, 10, 10, 10], TargetLength(1010, 90)) == Location(8, 0.9)
  {
    SumOfEqual([10, 10, 10, 10, 10, 10, 10, 10, 10], 10);
    assert TargetLength(1010, 90) == 90.9;
  }

  lemma OvershootPoint()
    ensures Offset(PointAt(Template, [10, 10, 10, 10, 10, 10, 10, 10, 10], Location(8, 0.9)))
         == RealPoint(35.9, 35.0)
  {
    assert 0.9 / 10.0 == 0.09;
    assert Lerp(Point(40, 40), Point(50, 40), 0.09) == RealPoint(40.9, 40.0);
  }
}
