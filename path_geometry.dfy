/** Placement of a bus's block on its route (the `blocks` memo of src/App.tsx):
    segment lengths, the walk to the segment holding the target arc length,
    and linear interpolation inside that segment. */
module PathGeometry {
  import opened ClientState

  /** Side of the square drawn for a bus. */
  const BLOCK_SIZE: int := 10

  /** `percent` of a bus at the end of its route: 100.0 in tenths. */
  const FULL_PERCENT: nat := 1000

  function Abs(n: int): nat
  {
    if n < 0 then -n else n
  }

  function Min(a: int, b: int): int
  {
    if a <= b then a else b
  }

  /** A horizontal or vertical segment: on these `Math.hypot` is exact. */
  predicate AxisAligned(p: Point, q: Point)
  {
    p.x == q.x || p.y == q.y
  }

  predicate Aligned(path: seq<Point>)
  {
    forall i :: 0 <= i < |path| - 1 ==> AxisAligned(path[i], path[i + 1])
  }

  /** A route the placement code can work on: at least one segment, and no
      segment of length zero (the code would index past the end or divide by zero). */
  predicate ValidRoute(path: seq<Point>)
  {
    && |path| >= 2
    && Aligned(path)
    && forall i :: 0 <= i < |path| - 1 ==> path[i] != path[i + 1]
  }

  predicate Positive(lens: seq<nat>)
  {
    forall i :: 0 <= i < |lens| ==> lens[i] > 0
  }

  /** The Euclidean length of the segment from `p` to `q`, for an axis-aligned segment. */
  function Dist(p: Point, q: Point): (d: nat)
    requires AxisAligned(p, q)
    ensures d == 0 <==> p == q
  {
    Abs(q.x - p.x) + Abs(q.y - p.y)
  }

  /** On an axis-aligned segment `Dist` is the Euclidean length: its square is
      the sum of the squared coordinate differences. */
  lemma DistIsHypot(p: Point, q: Point)
    requires AxisAligned(p, q)
    ensures Dist(p, q) * Dist(p, q) == (q.x - p.x) * (q.x - p.x) + (q.y - p.y) * (q.y - p.y)
  {
    if p.x == q.x {
      assert Dist(p, q) == Abs(q.y - p.y);
    } else {
      assert Dist(p, q) == Abs(q.x - p.x);
    }
  }

  /** The lengths of the segments between consecutive waypoints, in order:
      the lengths of the route without its last waypoint, then the last segment. */
  function SegmentLengths(path: seq<Point>): (lens: seq<nat>)
    requires Aligned(path)
    ensures |lens| == if |path| < 2 then 0 else |path| - 1
    ensures ValidRoute(path) ==> Positive(lens)
    decreases |path|
  {
    if |path| < 2 then []
    else
      var n := |path| - 1;
      var init := path[..n];
      assert forall i :: 0 <= i < n ==> init[i] == path[i];
      var lens := SegmentLengths(init) + [Dist(path[n - 1], path[n])];
      assert ValidRoute(path) ==> Positive(lens) by {
        if ValidRoute(path) && n >= 2 {
          assert ValidRoute(init);
        }
      }
      lens
  }

  /** Segment `k` is as long as the distance between waypoints `k` and `k + 1`. */
  lemma {:induction false} SegmentLengthAt(path: seq<Point>, k: nat)
    requires Aligned(path) && k < |path| - 1
    ensures SegmentLengths(path)[k] == Dist(path[k], path[k + 1])
    decreases |path|
  {
    var n := |path| - 1;
    if k < n - 1 {
      var init := path[..n];
      assert forall i :: 0 <= i < n ==> init[i] == path[i];
      SegmentLengthAt(init, k);
    }
  }

  function Sum(s: seq<nat>): nat
  {
    if s == [] then 0 else s[0] + Sum(s[1..])
  }

  /** Adding the next segment to a prefix adds its length. */
  lemma {:induction false} SumSnoc(s: seq<nat>, k: nat)
    requires k < |s|
    ensures Sum(s[..k + 1]) == Sum(s[..k]) + s[k]
  {
    if k == 0 {
      assert s[..1] == [s[0]];
      assert s[..1][1..] == [];
    } else {
      SumSnoc(s[1..], k - 1);
      assert s[..k + 1][1..] == s[1..][..k];
      assert s[..k][1..] == s[1..][..k - 1];
    }
  }

  /** A prefix of the segments is never longer than the whole route. */
  lemma {:induction false} SumPrefixBounded(s: seq<nat>, k: nat)
    requires k <= |s|
    ensures Sum(s[..k]) <= Sum(s)
    decreases |s| - k
  {
    if k == |s| {
      assert s[..k] == s;
    } else {
      SumPrefixBounded(s, k + 1);
      SumSnoc(s, k);
    }
  }

  lemma {:induction false} SumPositive(s: seq<nat>)
    requires |s| > 0 && Positive(s)
    ensures Sum(s) >= s[0] > 0
  {
  }

  /** Splitting off the first segment of a prefix. */
  lemma SumPrefixShift(s: seq<nat>, j: nat)
    requires 0 < j <= |s|
    ensures Sum(s[..j]) == s[0] + Sum(s[1..][..j - 1])
  {
    assert s[..j][1..] == s[1..][..j - 1];
  }

  /** `(blockPercent / 100) * totalLength` with `blockPercent = percent / 10`:
      the arc length at which the block is to be drawn. */
  function TargetLength(percent: nat, total: nat): (t: real)
    ensures 0.0 <= t
    ensures percent <= FULL_PERCENT ==> t <= total as real
    ensures percent > FULL_PERCENT && total > 0 ==> t > total as real
  {
    (percent as real / 10.0 / 100.0) * total as real
  }

  /** A segment index and the distance already travelled along that segment. */
  datatype Location = Location(segment: nat, offset: real)

  /** Reference definition of the point at arc length `s`: if `s` does not
      reach past the first segment (or there is no other), it lies `s` along
      the first segment; otherwise it lies `s - lens[0]` along the rest. */
  function Locate(lens: seq<nat>, s: real): (loc: Location)
    requires |lens| > 0 && Positive(lens)
    ensures loc.segment < |lens|
    decreases |lens|
  {
    if |lens| == 1 || s <= lens[0] as real then Location(0, s)
    else
      var rest := Locate(lens[1..], s - lens[0] as real);
      Location(rest.segment + 1, rest.offset)
  }

  /** For an arc length within the route, the located segment holds it: the
      offset lies within that segment, and the segments before it plus the
      offset add up to `s`. */
  lemma {:induction false} LocateArcLength(lens: seq<nat>, s: real)
    requires |lens| > 0 && Positive(lens)
    requires 0.0 <= s <= Sum(lens) as real
    ensures 0.0 <= Locate(lens, s).offset <= lens[Locate(lens, s).segment] as real
    ensures Sum(lens[..Locate(lens, s).segment]) as real + Locate(lens, s).offset == s
    decreases |lens|
  {
    if |lens| == 1 || s <= lens[0] as real {
      assert lens[..0] == [];
      if |lens| == 1 {
        assert lens[1..] == [];
      }
    } else {
      var s' := s - lens[0] as real;
      LocateArcLength(lens[1..], s');
      SumPrefixShift(lens, Locate(lens[1..], s').segment + 1);
    }
  }

  /** The search stops at the first segment whose end reaches `s`: it never
      moves past a prefix of the segments that already covers `s`. */
  lemma {:induction false} LocateStopsAtFirstCover(lens: seq<nat>, s: real, j: nat)
    requires |lens| > 0 && Positive(lens)
    requires 0 < j <= |lens| && s <= Sum(lens[..j]) as real
    ensures Locate(lens, s).segment < j
    decreases |lens|
  {
    SumPrefixShift(lens, j);
    if j == 1 {
      assert lens[1..][..0] == [];
    }
    if !(|lens| == 1 || s <= lens[0] as real) {
      LocateStopsAtFirstCover(lens[1..], s - lens[0] as real, j - 1);
    }
  }

  /** The whole length of the route lands on the end of its last segment. */
  lemma {:induction false} LocateAtTotal(lens: seq<nat>)
    requires |lens| > 0 && Positive(lens)
    ensures Locate(lens, Sum(lens) as real) == Location(|lens| - 1, lens[|lens| - 1] as real)
    decreases |lens|
  {
    if |lens| == 1 {
      assert lens[1..] == [];
    } else {
      SumPositive(lens[1..]);
      LocateAtTotal(lens[1..]);
    }
  }

  /** A longer arc length never lands on an earlier point of the route. */
  lemma LocateMonotone(lens: seq<nat>, s1: real, s2: real)
    requires |lens| > 0 && Positive(lens)
    requires 0.0 <= s1 <= s2 <= Sum(lens) as real
    ensures Locate(lens, s1).segment <= Locate(lens, s2).segment
    ensures Locate(lens, s1).segment == Locate(lens, s2).segment
            ==> Locate(lens, s1).offset <= Locate(lens, s2).offset
  {
    var a, b := Locate(lens, s1), Locate(lens, s2);
    LocateArcLength(lens, s1);
    LocateArcLength(lens, s2);
    SumSnoc(lens, b.segment);
    LocateStopsAtFirstCover(lens, s1, b.segment + 1);
  }

  lemma DivBounds(s: real, l: real)
    requires 0.0 <= s <= l && 0.0 < l
    ensures 0.0 <= s / l <= 1.0
  {
  }

  /** `segmentStart + (segmentEnd - segmentStart) * progress`. */
  function Lerp(a: Point, b: Point, t: real): RealPoint
  {
    RealPoint(a.x as real + (b.x - a.x) as real * t, a.y as real + (b.y - a.y) as real * t)
  }

  /** The top-left corner of a block centred on `p`. */
  function Offset(p: RealPoint): RealPoint
  {
    RealPoint(p.x - BLOCK_SIZE as real / 2.0, p.y - BLOCK_SIZE as real / 2.0)
  }

  /** The point `loc.offset` along segment `loc.segment` of `path`, whose
      segment lengths are `lens`. */
  function PointAt(path: seq<Point>, lens: seq<nat>, loc: Location): RealPoint
    requires |lens| == |path| - 1 && Positive(lens) && loc.segment < |lens|
  {
    Lerp(path[loc.segment], path[loc.segment + 1], loc.offset / lens[loc.segment] as real)
  }

  /** The point at arc length `s` along `path`. */
  function ArcPoint(path: seq<Point>, s: real): RealPoint
    requires ValidRoute(path)
  {
    var lens := SegmentLengths(path);
    PointAt(path, lens, Locate(lens, s))
  }

  /** What the segment walk and its clamp yield, as a segment
      and the distance `targetLength - accumulatedLength` along it. Within the
      route this is the reference `Locate`; beyond it the index is clamped to the
      last segment while the accumulated length stays at the whole route. */
  function Search(lens: seq<nat>, s: real): (loc: Location)
    requires |lens| > 0 && Positive(lens)
    ensures loc.segment < |lens|
  {
    if s <= Sum(lens) as real then Locate(lens, s)
    else Location(|lens| - 1, s - Sum(lens) as real)
  }

  /** Where the block of a bus at `percent` is drawn on `path`: the point the
      search finds for the target arc length, moved up and left by half a block. */
  function BlockPosition(path: seq<Point>, percent: nat): RealPoint
    requires ValidRoute(path)
  {
    var lens := SegmentLengths(path);
    Offset(PointAt(path, lens, Search(lens, TargetLength(percent, Sum(lens)))))
  }

  /** The loop that measures every segment and adds up the total length. */
  method MeasureSegments(path: seq<Point>) returns (segmentLengths: seq<nat>, totalLength: nat)
    requires Aligned(path)
    ensures segmentLengths == SegmentLengths(path)
    ensures totalLength == Sum(segmentLengths)
  {
    segmentLengths, totalLength := [], 0;
    var i := 0;
    while i < |path| - 1
      invariant 0 <= i <= if |path| < 2 then 0 else |path| - 1
      invariant |path| > 0 ==> segmentLengths == SegmentLengths(path[..i + 1])
      invariant |path| == 0 ==> segmentLengths == []
      invariant totalLength == Sum(segmentLengths)
    {
      var segmentLength := Dist(path[i], path[i + 1]);
      SegmentLengthsSnoc(path, i);
      SumAppend(segmentLengths, segmentLength);
      segmentLengths := segmentLengths + [segmentLength];
      totalLength := totalLength + segmentLength;
      i := i + 1;
    }
    if |path| > 0 {
      assert path[..i + 1] == path;
    }
  }

  /** Measuring one more segment extends the lengths of a prefix of the route. */
  lemma SegmentLengthsSnoc(path: seq<Point>, i: nat)
    requires Aligned(path) && i < |path| - 1
    ensures SegmentLengths(path[..i + 2]) == SegmentLengths(path[..i + 1]) + [Dist(path[i], path[i + 1])]
  {
    var prefix := path[..i + 2];
    assert forall j :: 0 <= j < i + 2 ==> prefix[j] == path[j];
    assert prefix[..i + 1] == path[..i + 1];
  }

  lemma SumAppend(s: seq<nat>, x: nat)
    ensures Sum(s + [x]) == Sum(s) + x
  {
    SumSnoc(s + [x], |s|);
    assert (s + [x])[..|s| + 1] == s + [x] && (s + [x])[..|s|] == s;
  }

  /** The loop that walks the segments until the target length is covered,
      and the clamp of the index to the last segment. */
  method FindSegment(segmentLengths: seq<nat>, targetLength: real)
    returns (segmentIndex: nat, accumulatedLength: nat)
    requires |segmentLengths| > 0 && Positive(segmentLengths)
    ensures segmentIndex < |segmentLengths|
    ensures Search(segmentLengths, targetLength) == Location(segmentIndex, targetLength - accumulatedLength as real)
    ensures targetLength <= Sum(segmentLengths) as real ==> accumulatedLength == Sum(segmentLengths[..segmentIndex])
    ensures targetLength > Sum(segmentLengths) as real ==>
      segmentIndex == |segmentLengths| - 1 && accumulatedLength == Sum(segmentLengths)
  {
    var lens := segmentLengths;
    accumulatedLength, segmentIndex := 0, 0;
    assert lens[0..] == lens;
    while ((accumulatedLength + lens[segmentIndex]) as real) < targetLength
      invariant 0 <= segmentIndex < |lens|
      invariant accumulatedLength == Sum(lens[..segmentIndex])
      invariant Locate(lens, targetLength).segment
                == segmentIndex + Locate(lens[segmentIndex..], targetLength - accumulatedLength as real).segment
      invariant Locate(lens, targetLength).offset
                == Locate(lens[segmentIndex..], targetLength - accumulatedLength as real).offset
      decreases |lens| - segmentIndex
    {
      SumSnoc(lens, segmentIndex);
      if segmentIndex + 1 < |lens| {
        assert lens[segmentIndex..][1..] == lens[segmentIndex + 1..];
      }
      accumulatedLength := accumulatedLength + lens[segmentIndex];
      segmentIndex := segmentIndex + 1;
      if segmentIndex >= |lens| {
        break;
      }
    }
    if segmentIndex < |lens| {
      SumSnoc(lens, segmentIndex);
      SumPrefixBounded(lens, segmentIndex + 1);
    } else {
      assert lens[..segmentIndex] == lens;
    }
    segmentIndex := Min(segmentIndex, |lens| - 1);
  }

  /** The position of one route's block. */
  method PlaceBlock(pathCoordinates: seq<Point>, percent: nat) returns (pos: RealPoint)
    requires ValidRoute(pathCoordinates)
    ensures pos == BlockPosition(pathCoordinates, percent)
  {
    var blockPercent := percent as real / 10.0;
    var segmentLengths, totalLength := MeasureSegments(pathCoordinates);
    var targetLength := (blockPercent / 100.0) * totalLength as real;
    TargetLengthOf(blockPercent, percent, totalLength);
    var segmentIndex, accumulatedLength := FindSegment(segmentLengths, targetLength);
    pos := Interpolate(pathCoordinates, segmentLengths, segmentIndex, targetLength - accumulatedLength as real);
  }

  /** The code's two-step computation of the target arc length is `TargetLength`. */
  lemma TargetLengthOf(blockPercent: real, percent: nat, total: nat)
    requires blockPercent == percent as real / 10.0
    ensures (blockPercent / 100.0) * total as real == TargetLength(percent, total)
  {
  }

  /** The interpolation inside the found segment: the fraction of the found segment
      already covered, the point that far along it, and the shift by half a block. */
  method Interpolate(pathCoordinates: seq<Point>, segmentLengths: seq<nat>, segmentIndex: nat, offset: real)
    returns (pos: RealPoint)
    requires |segmentLengths| == |pathCoordinates| - 1 && Positive(segmentLengths)
    requires segmentIndex < |segmentLengths|
    ensures pos == Offset(PointAt(pathCoordinates, segmentLengths, Location(segmentIndex, offset)))
  {
    var segmentProgress := 0.0;
    if segmentIndex < |segmentLengths| {
      segmentProgress := offset / segmentLengths[segmentIndex] as real;
    }
    var segmentStart, segmentEnd := pathCoordinates[segmentIndex], pathCoordinates[segmentIndex + 1];
    var posX := segmentStart.x as real + (segmentEnd.x - segmentStart.x) as real * segmentProgress
                - BLOCK_SIZE as real / 2.0;
    var posY := segmentStart.y as real + (segmentEnd.y - segmentStart.y) as real * segmentProgress
                - BLOCK_SIZE as real / 2.0;
    pos := RealPoint(posX, posY);
  }

  /** The `blocks` memo: one block per route, placed from
      the bus's `percent` and coloured from its `is_active` in the latest snapshot. */
  method ComputeBlocks(globalState: Option<GlobalState>, coordinates: seq<BusCoordinates>)
    returns (blocks: seq<Block>)
    requires globalState.Some? ==> forall i :: 0 <= i < |coordinates| ==>
      coordinates[i].uuid in globalState.value.buses && ValidRoute(coordinates[i].coordinates)
    ensures globalState.None? || coordinates == [] ==> blocks == []
    ensures globalState.Some? ==> |blocks| == |coordinates|
    ensures globalState.Some? ==> forall i :: 0 <= i < |coordinates| ==>
      var bus := globalState.value.buses[coordinates[i].uuid];
      && blocks[i].uuid == coordinates[i].uuid
      && blocks[i].isActive == bus.isActive
      && RealPoint(blocks[i].x, blocks[i].y) == BlockPosition(coordinates[i].coordinates, bus.percent)
  {
    if globalState.None? || |coordinates| == 0 {
      return [];
    }
    var state := globalState.value;
    blocks := [];
    for i := 0 to |coordinates|
      invariant |blocks| == i
      invariant forall j :: 0 <= j < i ==>
        var bus := state.buses[coordinates[j].uuid];
        && blocks[j].uuid == coordinates[j].uuid
        && blocks[j].isActive == bus.isActive
        && RealPoint(blocks[j].x, blocks[j].y) == BlockPosition(coordinates[j].coordinates, bus.percent)
    {
      var busCoord := coordinates[i];
      var bus := state.buses[busCoord.uuid];
      var pos := PlaceBlock(busCoord.coordinates, bus.percent);
      blocks := blocks + [Block(pos.x, pos.y, busCoord.uuid, bus.isActive)];
    }
  }

  /** Within the route the block is drawn at the point at the target arc length. */
  lemma BlockFollowsArcLength(path: seq<Point>, percent: nat)
    requires ValidRoute(path) && percent <= FULL_PERCENT
    ensures BlockPosition(path, percent) == Offset(ArcPoint(path, TargetLength(percent, Sum(SegmentLengths(path)))))
  {
  }

  /** A bus at 0 is drawn on the first waypoint, offset by half a block. */
  lemma BlockAtStart(path: seq<Point>)
    requires ValidRoute(path)
    ensures BlockPosition(path, 0) == Offset(ToReal(path[0]))
  {
    var lens := SegmentLengths(path);
    assert TargetLength(0, Sum(lens)) == 0.0;
    assert Search(lens, 0.0) == Location(0, 0.0);
    assert 0.0 / lens[0] as real == 0.0;
    assert Lerp(path[0], path[1], 0.0) == ToReal(path[0]);
  }

  /** A bus at 1000 (100.0 %) is drawn on the last waypoint, offset by half a block. */
  lemma BlockAtEnd(path: seq<Point>)
    requires ValidRoute(path)
    ensures BlockPosition(path, FULL_PERCENT) == Offset(ToReal(path[|path| - 1]))
  {
    var lens := SegmentLengths(path);
    var n := |lens|;
    TargetAtFull(Sum(lens));
    LocateAtTotal(lens);
    assert Search(lens, Sum(lens) as real) == Location(n - 1, lens[n - 1] as real);
    assert lens[n - 1] > 0;
    DivSelf(lens[n - 1] as real);
    assert Lerp(path[n - 1], path[n], 1.0) == ToReal(path[n]);
  }

  /** Within the route, the block's point lies on the segment the search stops
      at, a fraction in [0, 1] of the way along it, and the segments before it
      plus the distance travelled on it add up to the target arc length. */
  lemma BlockOnRoute(path: seq<Point>, percent: nat)
    requires ValidRoute(path) && percent <= FULL_PERCENT
    ensures var lens := SegmentLengths(path);
            var target := TargetLength(percent, Sum(lens));
            var loc := Search(lens, target);
            var progress := loc.offset / lens[loc.segment] as real;
            && 0.0 <= progress <= 1.0
            && BlockPosition(path, percent) == Offset(Lerp(path[loc.segment], path[loc.segment + 1], progress))
            && Sum(lens[..loc.segment]) as real + loc.offset == target
  {
    var lens := SegmentLengths(path);
    var target := TargetLength(percent, Sum(lens));
    var loc := Locate(lens, target);
    LocateArcLength(lens, target);
    DivBounds(loc.offset, lens[loc.segment] as real);
  }

  /** A larger `percent` never draws the block at an earlier point of the route. */
  lemma BlockAdvancesWithPercent(path: seq<Point>, p1: nat, p2: nat)
    requires ValidRoute(path) && p1 <= p2 <= FULL_PERCENT
    ensures var lens := SegmentLengths(path);
            var a := Search(lens, TargetLength(p1, Sum(lens)));
            var b := Search(lens, TargetLength(p2, Sum(lens)));
            a.segment < b.segment || (a.segment == b.segment && a.offset <= b.offset)
  {
    var lens := SegmentLengths(path);
    TargetLengthMonotone(p1, p2, Sum(lens));
    LocateMonotone(lens, TargetLength(p1, Sum(lens)), TargetLength(p2, Sum(lens)));
  }

  lemma DivSelf(l: real)
    requires l > 0.0
    ensures l / l == 1.0
  {
  }

  lemma TargetLengthMonotone(p1: nat, p2: nat, total: nat)
    requires p1 <= p2
    ensures TargetLength(p1, total) <= TargetLength(p2, total)
  {
    var d := p2 as real / 10.0 / 100.0 - p1 as real / 10.0 / 100.0;
    assert d >= 0.0;
    assert TargetLength(p2, total) - TargetLength(p1, total) == d * total as real;
  }

  lemma TargetAtFull(total: nat)
    ensures TargetLength(FULL_PERCENT, total) == total as real
  {
    assert FULL_PERCENT as real / 10.0 / 100.0 == 1.0;
  }

  /** The two-segment example: 75.0 % of the route (0,0)-(10,0)-(10,10) is
      arc length 15, halfway along the second segment, at (10, 5). */
  lemma TwoSegmentExample(path: seq<Point>)
    requires |path| == 3 && path[0] == Point(0, 0) && path[1] == Point(10, 0) && path[2] == Point(10, 10)
    ensures ValidRoute(path) && BlockPosition(path, 750) == RealPoint(5.0, 0.0)
  {
    assert ValidRoute(path);
    TwoSegmentLengths(path);
    var lens := SegmentLengths(path);
    TwoSegmentSearch(lens);
    TwoSegmentPoint(path, lens);
  }

  /** Both segments of the example route are 10 long. */
  lemma TwoSegmentLengths(path: seq<Point>)
    requires |path| == 3 && path[0] == Point(0, 0) && path[1] == Point(10, 0) && path[2] == Point(10, 10)
    ensures Aligned(path)
    ensures var lens := SegmentLengths(path); |lens| == 2 && lens[0] == 10 && lens[1] == 10
  {
    assert Aligned(path);
    SegmentLengthAt(path, 0);
    SegmentLengthAt(path, 1);
  }

  /** On two segments of 10, 75.0 % is the target 15, which lies 5 into the
      second segment. */
  lemma TwoSegmentSearch(lens: seq<nat>)
    requires |lens| == 2 && lens[0] == 10 && lens[1] == 10
    ensures Positive(lens) && Sum(lens) == 20
    ensures Search(lens, TargetLength(750, Sum(lens))) == Location(1, 5.0)
  {
    var rest := lens[1..];
    assert |rest| == 1 && rest[0] == 10 && rest[1..] == [];
    assert Sum(rest) == 10;
    assert Sum(lens) == 20;
    assert TargetLength(750, 20) == 15.0;
    assert Locate(rest, 5.0) == Location(0, 5.0);
  }

  /** 5 into the second segment of the example route is (10, 5); the block's
      corner is half a block up and left of it. */
  lemma TwoSegmentPoint(path: seq<Point>, lens: seq<nat>)
    requires |path| == 3 && path[0] == Point(0, 0) && path[1] == Point(10, 0) && path[2] == Point(10, 10)
    requires |lens| == 2 && lens[0] == 10 && lens[1] == 10
    ensures Offset(PointAt(path, lens, Location(1, 5.0))) == RealPoint(5.0, 0.0)
  {
    assert 5.0 / 10.0 == 0.5;
    assert PointAt(path, lens, Location(1, 5.0)) == Lerp(Point(10, 0), Point(10, 10), 0.5);
    assert Lerp(Point(10, 0), Point(10, 10), 0.5) == RealPoint(10.0, 5.0);
  }
}
