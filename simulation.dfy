/** The backend of src-tauri/src/main.rs: the shared `GlobalData`, the three
    commands that change it, and one tick of the per-bus thread that moves a bus
    back and forth along its route. Locking, sleeping and serialisation are not
    part of this model; every operation runs as one step on the locked data. */
module Simulation {

  const U32_MODULUS: int := 0x1_0000_0000

  type u32 = x: int | 0 <= x < U32_MODULUS
  type u64 = x: int | 0 <= x < 0x1_0000_0000_0000_0000
  type i32 = x: int | -0x8000_0000 <= x < 0x8000_0000

  /** A bus id; only its identity matters here. */
  type Uuid = string

  /** The end of the route: 100.0 % in tenths of a percent. */
  const FULL: u32 := 1000

  /** `struct Bus`. */
  datatype Bus = Bus(percent: u32, isActive: bool)

  /** `a - b` on `u32` as a release build computes it: wrapping below zero. */
  function WrappingSub(a: u32, b: u32): (r: u32)
    ensures b <= a ==> r == a - b
    ensures a < b ==> r == a - b + U32_MODULUS
  {
    (a - b) % U32_MODULUS
  }

  /** `a + b` on `u32` as a release build computes it: wrapping past 2^32 - 1. */
  function WrappingAdd(a: u32, b: u32): (r: u32)
    ensures a + b < U32_MODULUS ==> r == a + b
    ensures a + b >= U32_MODULUS ==> r == a + b - U32_MODULUS
  {
    (a + b) % U32_MODULUS
  }

  /** Where a moving bus is and which way it is going. */
  datatype Motion = Motion(percent: u32, increasing: bool)

  /** The ping-pong step of an active bus. */
  function Step(current: u32, increasing: bool, speed: u32): (m: Motion)
    ensures current <= FULL && speed <= FULL ==> m.percent <= FULL
    ensures speed <= FULL && m.increasing != increasing ==> m.percent in {0, FULL}
  {
    if increasing then
      if current >= WrappingSub(FULL, speed) then Motion(FULL, false)
      else Motion(WrappingAdd(current, speed), true)
    else
      if current < speed then Motion(0, true)
      else Motion(current - speed, false)
  }

  /** The four cases of a step, in plain arithmetic, for a speed that does not
      make `1000 - speed` wrap. */
  lemma StepCases(current: u32, increasing: bool, speed: u32)
    requires speed <= FULL
    ensures increasing && current < FULL - speed ==>
      Step(current, increasing, speed) == Motion(current + speed, true)
    ensures increasing && current >= FULL - speed ==>
      Step(current, increasing, speed) == Motion(FULL, false)
    ensures !increasing && current < speed ==>
      Step(current, increasing, speed) == Motion(0, true)
    ensures !increasing && current >= speed ==>
      Step(current, increasing, speed) == Motion(current - speed, false)
  {
  }

  /** Without `speed <= 1000` the bound fails: `1000 - 1001` wraps to 2^32 - 1,
      so a bus at 0 is moved to 1001. */
  lemma StepLeavesRangeWhenTooFast()
    ensures Step(0, true, 1001) == Motion(1001, true)
  {
    assert WrappingSub(FULL, 1001) == U32_MODULUS - 1;
  }

  /** Consecutive steps of an active bus, one per tick, each at the speed in
      force during that tick; the speed may change between ticks. */
  function Run(m: Motion, speeds: seq<u32>): Motion
    decreases |speeds|
  {
    if speeds == [] then m
    else Run(Step(m.percent, m.increasing, speeds[0]), speeds[1..])
  }

  /** Any number of steps keeps the bus on its route, as long as no speed in
      force exceeds 1000. */
  lemma {:induction false} RunStaysInRange(m: Motion, speeds: seq<u32>)
    requires m.percent <= FULL
    requires forall i :: 0 <= i < |speeds| ==> speeds[i] <= FULL
    ensures Run(m, speeds).percent <= FULL
    decreases |speeds|
  {
    if speeds != [] {
      RunStaysInRange(Step(m.percent, m.increasing, speeds[0]), speeds[1..]);
    }
  }

  /** Every bus is within `0..1000`. */
  predicate InRange(buses: map<Uuid, Bus>)
  {
    forall id :: id in buses ==> buses[id].percent <= FULL
  }

  /** `toggle_bus` on a map of buses: a missing bus is first inserted as
      stopped at 0, then the bus's `is_active` is flipped. */
  function Toggled(buses: map<Uuid, Bus>, busId: Uuid): (r: map<Uuid, Bus>)
    ensures r.Keys == buses.Keys + {busId}
    ensures forall id :: id in buses && id != busId ==> r[id] == buses[id]
    ensures busId in buses ==> r[busId] == Bus(buses[busId].percent, !buses[busId].isActive)
    ensures busId !in buses ==> r[busId] == Bus(0, true)
    ensures InRange(buses) ==> InRange(r)
  {
    var bus := if busId in buses then buses[busId] else Bus(0, false);
    buses[busId := bus.(isActive := !bus.isActive)]
  }

  /** Toggling a known bus twice restores the fleet. */
  lemma ToggleTwice(buses: map<Uuid, Bus>, busId: Uuid)
    requires busId in buses
    ensures Toggled(Toggled(buses, busId), busId) == buses
  {
    var r := Toggled(Toggled(buses, busId), busId);
    assert r.Keys == buses.Keys;
    assert forall id :: id in r ==> r[id] == buses[id];
  }

  /** The state one tick leaves: the fleet and the thread's direction flag. */
  datatype TickResult = TickResult(buses: map<Uuid, Bus>, increasing: bool)

  /** One pass of the thread loop's body for bus `busId`. */
  function TickOutcome(buses: map<Uuid, Bus>, busId: Uuid, increasing: bool, speed: u32): (t: TickResult)
    ensures InRange(buses) && speed <= FULL ==> InRange(t.buses)
  {
    var bus := if busId in buses then buses[busId] else Bus(0, true);
    if !bus.isActive then TickResult(buses[busId := bus], increasing)
    else
      var m := Step(bus.percent, increasing, speed);
      TickResult(buses[busId := Bus(m.percent, bus.isActive)], m.increasing)
  }

  /** An inactive bus does not move and its thread keeps its direction;
      nothing else in the fleet changes. */
  lemma TickSkipsInactive(buses: map<Uuid, Bus>, busId: Uuid, increasing: bool, speed: u32)
    requires busId in buses && !buses[busId].isActive
    ensures TickOutcome(buses, busId, increasing, speed) == TickResult(buses, increasing)
  {
    assert buses[busId := buses[busId]] == buses;
  }

  /** An active bus takes one step; no other bus changes. */
  lemma TickMovesActive(buses: map<Uuid, Bus>, busId: Uuid, increasing: bool, speed: u32)
    requires busId in buses && buses[busId].isActive
    ensures var t := TickOutcome(buses, busId, increasing, speed);
      var m := Step(buses[busId].percent, increasing, speed);
      && t.buses.Keys == buses.Keys
      && t.buses[busId] == Bus(m.percent, true)
      && t.increasing == m.increasing
      && forall id :: id in buses && id != busId ==> t.buses[id] == buses[id]
  {
  }

  /** A bus the thread has not seen yet is added as active at 0 and moved
      at once. */
  lemma TickInsertsNewBus(buses: map<Uuid, Bus>, busId: Uuid, increasing: bool, speed: u32)
    requires busId !in buses
    ensures var t := TickOutcome(buses, busId, increasing, speed);
      && t.buses.Keys == buses.Keys + {busId}
      && t.buses[busId] == Bus(Step(0, increasing, speed).percent, true)
      && t.increasing == Step(0, increasing, speed).increasing
  {
  }

  /** `struct GlobalData` behind the global mutex. */
  class GlobalData {
    var balance: i32
    var speed: u32
    var refreshRate: u64
    var buses: map<Uuid, Bus>

    /** The initial value of the global data. */
    constructor ()
      ensures balance == 0 && speed == 1 && refreshRate == 20 && buses == map[]
    {
      balance, speed, refreshRate, buses := 0, 1, 20, map[];
    }

    predicate PercentsInRange()
      reads this
    {
      InRange(buses)
    }

    /** The `toggle_bus` command. */
    method ToggleBus(busId: Uuid)
      modifies this
      ensures buses == Toggled(old(buses), busId)
      ensures balance == old(balance) && speed == old(speed) && refreshRate == old(refreshRate)
      ensures old(PercentsInRange()) ==> PercentsInRange()
    {
      var bus := if busId in buses then buses[busId] else Bus(0, false);
      buses := buses[busId := bus];
      bus := bus.(isActive := !bus.isActive);
      buses := buses[busId := bus];
    }

    /** The `update_simulation_speed` command. */
    method UpdateSimulationSpeed(newSpeed: u32)
      modifies this
      ensures speed == newSpeed
      ensures balance == old(balance) && refreshRate == old(refreshRate) && buses == old(buses)
    {
      speed := newSpeed;
    }

    /** The `update_refresh_rate` command. */
    method UpdateRefreshRate(newRefreshRate: u64)
      modifies this
      ensures refreshRate == newRefreshRate
      ensures balance == old(balance) && speed == old(speed) && buses == old(buses)
    {
      refreshRate := newRefreshRate;
    }
  }

  /** The thread spawned for one bus: its bus id
      and the direction flag it carries from one pass to the next. */
  class BusThread {
    const busId: Uuid
    var increasing: bool

    constructor (id: Uuid)
      ensures busId == id && increasing
    {
      busId := id;
      increasing := true;
    }

    /** One pass of the loop body, with the lock held. */
    method Tick(data: GlobalData)
      modifies this, data`buses
      ensures TickResult(data.buses, increasing)
           == TickOutcome(old(data.buses), busId, old(increasing), data.speed)
      ensures old(data.PercentsInRange()) && data.speed <= FULL ==> data.PercentsInRange()
    {
      var speed := data.speed;
      var bus := if busId in data.buses then data.buses[busId] else Bus(0, true);
      data.buses := data.buses[busId := bus];
      if !bus.isActive {
        return;
      }
      var current := bus.percent;
      var newValue: u32;
      if increasing {
        if current >= WrappingSub(FULL, speed) {
          increasing := false;
          newValue := FULL;
        } else {
          newValue := WrappingAdd(current, speed);
        }
      } else {
        if current < speed {
          increasing := true;
          newValue := 0;
        } else {
          newValue := current - speed;
        }
      }
      assert Motion(newValue, increasing) == Step(current, old(increasing), speed);
      data.buses := data.buses[busId := bus.(percent := newValue)];
    }
  }
}
