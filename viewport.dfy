/** The `viewBox` memo of src/App.tsx: the smallest rectangle holding every
    waypoint of every route, widened by a fixed padding on each side. */
module Viewport {
  import opened ClientState

  /** Space left around the routes on every side. */
  const PADDING: int := 50

  /** The value of the `viewBox` attribute. `Empty` is the empty string drawn
      before any route exists; `Unbounded` is what the infinite initial bounds
      give when the routes hold no waypoint at all; `Box` is
      "`x` `y` `width` `height`". */
  datatype ViewBox = Empty | Unbounded | Box(x: int, y: int, width: int, height: int)

  /** The waypoints of all routes in one list, route after route. */
  function Flatten(routes: seq<BusCoordinates>): (all: seq<Point>)
    ensures forall r, k :: 0 <= r < |routes| && 0 <= k < |routes[r].coordinates| ==>
      routes[r].coordinates[k] in all
    ensures forall p :: p in all ==>
      exists r, k :: 0 <= r < |routes| && 0 <= k < |routes[r].coordinates| && routes[r].coordinates[k] == p
  {
    if routes == [] then []
    else
      var rest := Flatten(routes[1..]);
      assert forall r :: 1 <= r < |routes| ==> routes[r] == routes[1..][r - 1];
      routes[0].coordinates + rest
  }

  /** The loop over every waypoint: running minima and maxima of both
      coordinates. `seen` is false while they still hold their infinite
      starting values, which happens only for an empty list. */
  method Bounds(allCoordinates: seq<Point>) returns (seen: bool, minX: int, minY: int, maxX: int, maxY: int)
    ensures seen <==> |allCoordinates| > 0
    ensures seen ==> forall k :: 0 <= k < |allCoordinates| ==>
      minX <= allCoordinates[k].x <= maxX && minY <= allCoordinates[k].y <= maxY
    ensures seen ==>
      && (exists k :: 0 <= k < |allCoordinates| && allCoordinates[k].x == minX)
      && (exists k :: 0 <= k < |allCoordinates| && allCoordinates[k].x == maxX)
      && (exists k :: 0 <= k < |allCoordinates| && allCoordinates[k].y == minY)
      && (exists k :: 0 <= k < |allCoordinates| && allCoordinates[k].y == maxY)
  {
    seen := false;
    minX, minY, maxX, maxY := 0, 0, 0, 0;
    ghost var atMinX, atMinY, atMaxX, atMaxY := 0, 0, 0, 0;
    for i := 0 to |allCoordinates|
      invariant seen <==> i > 0
      invariant seen ==> forall k :: 0 <= k < i ==>
        minX <= allCoordinates[k].x <= maxX && minY <= allCoordinates[k].y <= maxY
      invariant seen ==> atMinX < i && atMinY < i && atMaxX < i && atMaxY < i
      invariant seen ==> allCoordinates[atMinX].x == minX && allCoordinates[atMaxX].x == maxX
      invariant seen ==> allCoordinates[atMinY].y == minY && allCoordinates[atMaxY].y == maxY
    {
      var coord := allCoordinates[i];
      if !seen || coord.x < minX {
        minX, atMinX := coord.x, i;
      }
      if !seen || coord.y < minY {
        minY, atMinY := coord.y, i;
      }
      if !seen || coord.x > maxX {
        maxX, atMaxX := coord.x, i;
      }
      if !seen || coord.y > maxY {
        maxY, atMaxY := coord.y, i;
      }
      seen := true;
    }
  }

  /** The `viewBox` memo. */
  method ComputeViewBox(coordinates: seq<BusCoordinates>) returns (vb: ViewBox)
    ensures vb.Empty? <==> |coordinates| == 0
    ensures vb.Unbounded? <==> |coordinates| > 0 && |Flatten(coordinates)| == 0
    ensures vb.Box? ==> forall r, k :: 0 <= r < |coordinates| && 0 <= k < |coordinates[r].coordinates| ==>
      var p := coordinates[r].coordinates[k];
      && vb.x + PADDING <= p.x <= vb.x + vb.width - PADDING
      && vb.y + PADDING <= p.y <= vb.y + vb.height - PADDING
    ensures vb.Box? ==>
      && (exists p :: p in Flatten(coordinates) && p.x == vb.x + PADDING)
      && (exists p :: p in Flatten(coordinates) && p.x == vb.x + vb.width - PADDING)
      && (exists p :: p in Flatten(coordinates) && p.y == vb.y + PADDING)
      && (exists p :: p in Flatten(coordinates) && p.y == vb.y + vb.height - PADDING)
  {
    if |coordinates| == 0 {
      return Empty;
    }
    var allCoordinates := Flatten(coordinates);
    var seen, minX, minY, maxX, maxY := Bounds(allCoordinates);
    if !seen {
      return Unbounded;
    }
    var viewBoxWidth := maxX - minX + PADDING * 2;
    var viewBoxHeight := maxY - minY + PADDING * 2;
    vb := Box(minX - PADDING, minY - PADDING, viewBoxWidth, viewBoxHeight);
  }
}
