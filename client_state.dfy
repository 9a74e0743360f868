/** Values the client (src/App.tsx) keeps or derives: the polled snapshot of the
    simulation, the per-bus routes and the blocks drawn on them. */
module ClientState {

  datatype Option<T> = None | Some(value: T)

  /** A waypoint of a route, in route space. */
  datatype Point = Point(x: int, y: int)

  /** A point of the drawing, where interpolation leaves the integer grid. */
  datatype RealPoint = RealPoint(x: real, y: real)

  /** One bus as the backend reports it: `percent` is in tenths of a percent (0..1000). */
  datatype Bus = Bus(percent: nat, isActive: bool)

  /** The snapshot returned by `get_global_state`, replaced wholesale on every poll. */
  datatype GlobalState = GlobalState(balance: int, speed: nat, refreshRate: nat, buses: map<string, Bus>)

  /** The route of one bus, built once from the first snapshot. */
  datatype BusCoordinates = BusCoordinates(uuid: string, isActive: bool, coordinates: seq<Point>)

  /** The square drawn for one bus: its top-left corner and its colour flag. */
  datatype Block = Block(x: real, y: real, uuid: string, isActive: bool)

  function ToReal(p: Point): RealPoint
  {
    RealPoint(p.x as real, p.y as real)
  }
}
