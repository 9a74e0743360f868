# Bus visualiser: route geometry and simulation state, in Dafny

The application is a Tauri desktop program. A Rust backend
(`src-tauri/src/main.rs`) keeps a table of buses. One thread per bus moves
that bus's `percent` (tenths of a percent, 0..1000) back and forth by `speed`
every tick. The React front end (`src/App.tsx`) polls the table. It builds one
staircase route per bus, computes an SVG `viewBox` around all routes, and draws
each bus as a square placed by arc length along its route.

This project models both sequential cores and proves their properties:

- `client_state.dfy` (`ClientState`): the values the client holds: points,
  buses, the snapshot, routes and blocks.
- `path_geometry.dfy` (`PathGeometry`): block placement from `src/App.tsx`.
  - Segment lengths, target arc length and the segment walk with its clamp.
  - Interpolation and the half-block offset.
  - The per-route `blocks` memo.
  - The code's loops are methods, each proved equal to a reference definition
    (`Locate`, `Search`, `BlockPosition`). Lemmas state what that definition
    promises: start and end points, arc-length bookkeeping, progress in
    [0, 1] and monotonicity in `percent`.
- `route_model.dfy` (`RouteModel`): the 10-point template and the
  route-construction loop. Lemmas cover the template's geometry, translation
  and separation of the routes.
- `viewport.dfy` (`Viewport`): the `viewBox` memo. It takes the running
  minima and maxima over every waypoint and adds 50 units of padding.
- `simulation.dfy` (`Simulation`): the backend.
  - The ping-pong step on `u32`, written out with release-mode wrap-around.
  - `GlobalData` as a class whose command methods update fields in place.
  - The per-bus thread as a class with one `Tick` method.
  - Function forms (`Step`, `Toggled`, `TickOutcome`) carry the bounds
    invariant and the case lemmas.

Modelling choices:

- Coordinates and segment lengths, including the total and the accumulated
  length, are integers. The target length, the offset into a segment and the
  progress along it are exact reals.
- `Math.hypot` is modelled as `|dx| + |dy|` on axis-aligned segments, where the
  two agree (`DistIsHypot`). All template segments are axis-aligned.
- The code has no guard against a route with fewer than two waypoints or a
  zero-length segment. With one waypoint the clamp at src/App.tsx:197 gives
  index -1 and src/App.tsx:210 reads a field of a waypoint that does not
  exist. A zero-length segment is a division by zero at src/App.tsx:203. `ValidRoute`
  is therefore a precondition. It does not silently return the waypoint.
- The code does not clamp `segmentProgress`. For `percent` above 1000 the
  walk runs off the end, the index is clamped to the last segment and
  `accumulatedLength` is left at the full length. The block is then placed
  `targetLength - totalLength` from the start of the last segment, not its
  end: a small overshoot jumps back into that segment. `Search` models this
  as written and `OvershootOnTemplate` shows it. The backend never produces
  such a value while `speed <= 1000`.
- `Object.keys` order is a parameter (`busKeys`) of the route construction.

## Model

| member | source | states |
|---|---|---|
| PathGeometry.Dist | src/App.tsx:174-177 | a segment's length is zero exactly when its two waypoints coincide |
| PathGeometry.DistIsHypot | src/App.tsx:174-177 | on an axis-aligned segment the modelled length squared equals dx² + dy², so it is `Math.hypot` |
| PathGeometry.SegmentLengths | src/App.tsx:171-180 | one length per consecutive pair of waypoints; all positive on a drawable route |
| PathGeometry.SegmentLengthAt | src/App.tsx:171-180 | length `k` is the distance from waypoint `k` to waypoint `k + 1` |
| PathGeometry.SegmentLengthsSnoc | src/App.tsx:171-180 | measuring one more segment appends its distance to the lengths of the shorter prefix |
| PathGeometry.MeasureSegments | src/App.tsx:171-180 | the `for` loop yields exactly the segment lengths, and `totalLength` is their sum |
| PathGeometry.TargetLengthOf | src/App.tsx:169-183 | the code's two divisions (`percent / 10`, then `/ 100`) give exactly `TargetLength` |
| PathGeometry.TargetLength | src/App.tsx:169-183 | the target arc length is non-negative; it is at most the total for percent ≤ 1000 and beyond the total for percent > 1000 |
| PathGeometry.Locate | src/App.tsx:186-194 | the reference search always names an existing segment |
| PathGeometry.LocateArcLength | src/App.tsx:186-194 | within the route, the found offset lies inside the found segment; the lengths of earlier segments plus the offset equal the target |
| PathGeometry.LocateStopsAtFirstCover | src/App.tsx:186-194 | the walk stops at the first segment whose end reaches the target; it never passes a prefix that already covers it |
| PathGeometry.LocateAtTotal | src/App.tsx:186-197 | the full length lands on the end of the last segment |
| PathGeometry.LocateMonotone | src/App.tsx:186-194 | a longer arc length never lands on an earlier segment, or earlier on the same segment |
| PathGeometry.PointAt | src/App.tsx:200-215 | the point `offset / length` of the way along the given segment, before the half-block shift; `BlockOnRoute` shows that fraction is in [0, 1] within the route |
| PathGeometry.ArcPoint | src/App.tsx:171-215 | the reference point at arc length `s` along a route: `Locate` names the segment and `PointAt` interpolates inside it |
| PathGeometry.BlockPosition | src/App.tsx:168-216 | the reference placement of a block: segment lengths, target length, walk with clamp, interpolation and half-block shift; `PlaceBlock` and `ComputeBlocks` are proved equal to it, and the `Block*` lemmas state what it promises |
| PathGeometry.Search | src/App.tsx:186-197 | the walk and clamp always name an existing segment |
| PathGeometry.FindSegment | src/App.tsx:186-197 | the `while` loop and clamp give an index below the segment count and the offset `targetLength - accumulatedLength` that `Search` defines; within the route `accumulatedLength` is the sum of the lengths before the index; beyond it the index is the last segment and `accumulatedLength` the total |
| PathGeometry.Interpolate | src/App.tsx:200-216 | the drawn corner is the point `offset / segmentLength` of the way along the found segment, moved by half a block on both axes |
| PathGeometry.PlaceBlock | src/App.tsx:168-216 | one block's position equals `BlockPosition` of its route and percent |
| PathGeometry.ComputeBlocks | src/App.tsx:162-225 | no snapshot or no routes gives no blocks; otherwise there is one block per route, in order, with the route's uuid, the snapshot's `is_active` and `BlockPosition` as its corner |
| PathGeometry.BlockFollowsArcLength | src/App.tsx:183-216 | for percent ≤ 1000 the block is the point at the target arc length, offset by half a block |
| PathGeometry.BlockAtStart | src/App.tsx:169-216 | at percent 0 the block is the first waypoint minus 5 on both axes |
| PathGeometry.BlockAtEnd | src/App.tsx:169-216 | at percent 1000 the block is the last waypoint minus 5 on both axes |
| PathGeometry.BlockOnRoute | src/App.tsx:200-216 | for percent ≤ 1000, `segmentProgress` is in [0, 1]; the un-offset point is that fraction along the found segment; earlier segments plus the offset equal the target length |
| PathGeometry.BlockAdvancesWithPercent | src/App.tsx:183-197 | a larger percent never places the block at an earlier point of the route |
| PathGeometry.TwoSegmentExample | src/App.tsx:169-216 | 75.0 % of the route (0,0)-(10,0)-(10,10) is drawn with its corner at (5, 0) |
| PathGeometry.TargetLengthMonotone | src/App.tsx:169-183 | a larger percent never gives a shorter target arc length |
| PathGeometry.TargetAtFull | src/App.tsx:169-183 | percent 1000 targets exactly the whole length |
| RouteModel.Translate | src/App.tsx:72-77 | translating a route keeps its number of waypoints |
| RouteModel.TranslateInverse | src/App.tsx:72-77 | moving a route down and back up again restores it |
| RouteModel.ShiftSegment | src/App.tsx:72-77 | one shifted segment stays axis-aligned, keeps its length, and is degenerate exactly when the original is |
| RouteModel.PointAtTranslate | src/App.tsx:72-77 | a point at a given distance along a segment moves down by `dy` with the route |
| RouteModel.TranslatePreservesSegments | src/App.tsx:72-77 | a vertical shift keeps a route axis-aligned and drawable, and keeps every segment length |
| RouteModel.TranslateMovesBlock | src/App.tsx:72-77 | on a route shifted by `dy` the block is drawn at the same x and `dy` lower |
| RouteModel.TemplateStair | src/App.tsx:43-54 | each template waypoint lies 10 to the right of, or 10 below, the one before it |
| RouteModel.TemplateSegments | src/App.tsx:43-54 | the template is drawable, its nine segments are each 10 long, and the total is 90 |
| RouteModel.BuildRoutes | src/App.tsx:69-84 | one route per bus key, in key order, with that key's uuid and `is_active`; every waypoint has the template's x and the template's y plus `i * 50` |
| RouteModel.RoutesAreDrawable | src/App.tsx:69-84 | every built route is drawable and 90 long |
| RouteModel.RoutesSeparated | src/App.tsx:72-77 | every waypoint of an earlier bus's route lies strictly above every waypoint of a later one |
| RouteModel.OvershootOnTemplate | src/App.tsx:186-216 | percent 1010 on the template is drawn 0.9 into the last segment, at (35.9, 35) |
| Viewport.Flatten | src/App.tsx:107 | the flattened list holds exactly the waypoints of all routes |
| Viewport.Bounds | src/App.tsx:109-119 | the four running extremes bound every waypoint, and each is attained by some waypoint |
| Viewport.ComputeViewBox | src/App.tsx:102-128 | no routes gives the empty string; routes without waypoints give the unbounded box; otherwise every waypoint lies at least 50 inside the box, and each edge lies exactly 50 from some waypoint, so width = maxX - minX + 100 and height = maxY - minY + 100 |
| Simulation.WrappingSub | src-tauri/src/main.rs:82 | `u32` subtraction is exact when it does not go below zero, and otherwise wraps by 2^32 |
| Simulation.WrappingAdd | src-tauri/src/main.rs:86 | `u32` addition is exact below 2^32, and otherwise wraps |
| Simulation.Step | src-tauri/src/main.rs:80-95 | with percent and speed at most 1000 the new percent stays at most 1000; the direction turns only at 0 or 1000 |
| Simulation.StepCases | src-tauri/src/main.rs:81-95 | the four cases: below `1000 - speed` it adds speed; otherwise it goes to 1000 and turns; decreasing below `speed` it goes to 0 and turns; otherwise it subtracts speed |
| Simulation.StepLeavesRangeWhenTooFast | src-tauri/src/main.rs:82 | with speed 1001 the subtraction wraps and a bus at 0 moves to 1001 |
| Simulation.Run | src-tauri/src/main.rs:69-97 | repeated passes of the thread loop for an active bus: one `Step` per pass, each at the speed in force during that pass |
| Simulation.RunStaysInRange | src-tauri/src/main.rs:69-97 | any number of steps, with the speed free to change between them as long as each is ≤ 1000, keeps percent within 0..1000 |
| Simulation.Toggled | src-tauri/src/main.rs:40-47 | toggling flips only the named bus, adds an unknown one as active at 0, and keeps every other bus and the range invariant |
| Simulation.ToggleTwice | src-tauri/src/main.rs:40-47 | toggling a known bus twice restores the table |
| Simulation.TickOutcome | src-tauri/src/main.rs:72-96 | a tick keeps every bus within 0..1000 when speed ≤ 1000 |
| Simulation.TickSkipsInactive | src-tauri/src/main.rs:77-79 | an inactive bus's tick changes neither the table nor the direction flag |
| Simulation.TickMovesActive | src-tauri/src/main.rs:80-96 | an active bus takes one `Step`, the direction becomes the step's, and no other bus changes |
| Simulation.TickInsertsNewBus | src-tauri/src/main.rs:73-76 | a bus not yet in the table is inserted as active at 0 and moved by one step |
| Simulation.GlobalData.constructor | src-tauri/src/main.rs:24-31 | the initial data: balance 0, speed 1, refresh rate 20, no buses |
| Simulation.GlobalData.ToggleBus | src-tauri/src/main.rs:40-47 | the table becomes `Toggled` of the old one; balance, speed and refresh rate are unchanged; the range invariant is kept |
| Simulation.GlobalData.UpdateSimulationSpeed | src-tauri/src/main.rs:49-53 | only `speed` changes |
| Simulation.GlobalData.UpdateRefreshRate | src-tauri/src/main.rs:55-59 | only `refresh_rate` changes |
| Simulation.BusThread.constructor | src-tauri/src/main.rs:66 | a thread starts out increasing |
| Simulation.BusThread.Tick | src-tauri/src/main.rs:71-96 | the table and flag become `TickOutcome` of the old ones; with speed ≤ 1000 the range invariant is kept |

## Left out

- The polling `useEffect`s (src/App.tsx:60-100) are not modelled: `invoke`, timers and JSON parsing are I/O. The snapshot is a parameter.
- The route construction runs once per session behind the `isLoaded` guard. That guard belongs to the polling code and is not modelled.
- The d3 `line()` path data (src/App.tsx:130-160), the click and slider handlers, and the JSX markup are not modelled: they are library calls and presentation.
- `ComputeViewBox` does not produce the `viewBox` string. `Box` holds its four numbers and `Unbounded` stands for the infinite bounds an empty route list would print.
- `PlaceBlock` uses exact reals: floating-point rounding in lengths, division and interpolation is not modelled. `Math.hypot` is modelled only for axis-aligned segments.
- `PlaceBlock` requires a route of at least two waypoints with no zero-length segment. The code would read an undefined waypoint or divide by zero there.
- `ComputeBlocks` requires every route's uuid to be in the snapshot. Otherwise the code throws at src/App.tsx:169.
- `get_global_state`, serde serialisation, the `Arc<Mutex>` global, thread spawning and `sleep` (src-tauri/src/main.rs:24-37, 61-104) are not modelled. Each command and each tick is one atomic step on the locked data, so interleavings between threads are not modelled.
- `Step`: only release-build wrap-around is modelled. A debug build panics on the same `u32` underflow or overflow.
- The random `Uuid` values are opaque strings; the two buses spawned by `main` are not modelled.
- `Run`: it has no ticks where the bus is paused. A paused tick leaves the percent unchanged (`TickSkipsInactive`), so the bound of `RunStaysInRange` still holds across such ticks.
