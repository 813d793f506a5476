/** The two-lane engine of highway_sim1.py: lane 0 is the left lane and lane 1
    the right one, every driver keeps the same follow distance, the lane-change
    check looks only at three cells of the other lane, and a driver that wants
    to change lanes can only try the other lane.  The output is the list of
    travel times. */
module HighwayV1 {
  import opened Roads
  import opened Sweep

  const Fast := 5
  const Slow := 4
  const SafeFollow := 4
  const Left := 0
  const Right := 1
  const HighwayLength := 110

  /** This version knows two desires only. */
  datatype Desire = Cruise | LaneChange

  /** The desire after a cruise: unchanged at full clearance, "Lane Change"
      when the driver was slowed down. */
  function CruiseDesire<D>(lane: seq<Cell<D>>, i: nat, speed: nat, follow: nat, before: Desire): Desire {
    if ClearRun(lane, i, speed + follow) == speed + follow then before else LaneChange
  }

  class Driver {
    const speed: nat
    const safeFollow: nat
    const arriveTime: int
    var desire: Desire

    constructor (speed: nat, arriveTime: int)
      ensures this.speed == speed && this.arriveTime == arriveTime
      ensures safeFollow == SafeFollow && desire == Cruise
    {
      this.speed := speed;
      safeFollow := SafeFollow;
      desire := Cruise;
      this.arriveTime := arriveTime;
    }
  }

  /** What the engine assumes of every driver on the road: a speed the source
      creates. */
  ghost predicate DriverOk(d: Driver) {
    d.speed == Fast || d.speed == Slow
  }

  ghost predicate DriversOk(road: Road<Driver>) {
    forall e :: e in OnRoad(road) ==> DriverOk(e)
  }

  class Highway {
    const length: nat
    var road: Road<Driver>

    ghost predicate Valid()
      reads this
    {
      Shaped(road, 2, length)
    }

    /** An empty two-lane highway of `length` cells per lane. */
    constructor (length: nat)
      ensures this.length == length && Valid()
      ensures forall l, p :: 0 <= l < 2 && 0 <= p < length ==> road[l][p] == Empty
    {
      this.length := length;
      var r: Road<Driver> := [[], []];
      for n := 0 to length
        invariant Shaped(r, 2, n)
        invariant forall l, p :: 0 <= l < 2 && 0 <= p < n ==> r[l][p] == Empty
      {
        r := [r[0] + [Empty], r[1] + [Empty]];
      }
      road := r;
    }

    function Get(lane: int, index: int): Cell<Driver>
      reads this
      requires 0 <= lane < |road| && 0 <= index < |road[lane]|
    {
      road[lane][index]
    }

    method Set(lane: int, index: int, value: Cell<Driver>)
      requires 0 <= lane < |road| && 0 <= index < |road[lane]|
      modifies this`road
      ensures road == Put(old(road), lane, index, value)
    {
      road := road[lane := road[lane][index := value]];
    }

    method SafeDistanceWithin(lane: int, index: nat, k: nat) returns (x: nat)
      requires Valid() && 0 <= lane < 2
      ensures x == ClearRun(road[lane], index, k)
    {
      x := Roads.SafeDistanceWithin(road[lane], index, k);
    }

    /** The right lane may be entered at `i`: the window of cells i .. i+2, with
        nothing behind the driver. */
    function SafeRightLaneChange(i: nat): (safe: bool)
      reads this
      requires Valid() && i + 2 < length
      ensures safe <==> WindowClear(road[Right], i, 0, 2)
    {
      ThreeCellWindow(road[Right], i);
      road[Right][i].Empty? && road[Right][i + 1].Empty? && road[Right][i + 2].Empty?
    }

    /** The left lane may be entered at `i`, with the same window. */
    function SafeLeftLaneChange(i: nat): (safe: bool)
      reads this
      requires Valid() && i + 2 < length
      ensures safe <==> WindowClear(road[Left], i, 0, 2)
    {
      ThreeCellWindow(road[Left], i);
      road[Left][i].Empty? && road[Left][i + 1].Empty? && road[Left][i + 2].Empty?
    }
  }

  class Simulation {
    const highway: Highway
    const timeSteps: int
    var currentStep: int
    var data: seq<int>

    ghost predicate Valid()
      reads this, highway
    {
      && highway.Valid() && highway.length == HighwayLength
      && SingleOccupancy(highway.road)
      && DriversOk(highway.road)
    }

    constructor (timeSteps: int)
      ensures this.timeSteps == timeSteps && currentStep == 0 && data == []
      ensures fresh(highway) && OnRoad(highway.road) == {} && Valid()
    {
      highway := new Highway(HighwayLength);
      this.timeSteps := timeSteps;
      currentStep := 0;
      data := [];
    }

    /** The cruise of the driver at (lane, i), as in the N-lane engine: it lands
        on the cell chosen by the gap scan, the origin is cleared, and its desire
        becomes "Lane Change" unless the whole window was clear. */
    method SimCruise(lane: int, i: nat)
      requires highway.Valid() && 0 <= lane < 2 && i < highway.length
      requires highway.road[lane][i].Car?
      requires i + 1 < highway.length && i + highway.road[lane][i].driver.speed < highway.length
      modifies highway`road, highway.road[lane][i].driver`desire
      ensures var d := old(highway.road[lane][i].driver);
        && highway.road == Put(Put(old(highway.road), lane, CruiseTarget(old(highway.road[lane]), i, d.speed, d.safeFollow), Car(d)), lane, i, Empty)
        && d.desire == CruiseDesire(old(highway.road[lane]), i, d.speed, d.safeFollow, old(d.desire))
    {
      var d := highway.Get(lane, i).driver;
      var x := highway.SafeDistanceWithin(lane, i, d.speed + d.safeFollow);
      if x == d.speed + d.safeFollow {
        highway.Set(lane, i + d.speed, Car(d));
      } else if x > d.safeFollow {
        d.desire := LaneChange;
        highway.Set(lane, i + x - d.safeFollow, Car(d));
      } else {
        d.desire := LaneChange;
        highway.Set(lane, i + 1, Car(d));
      }
      highway.Set(lane, i, Empty);
    }

    /** The update of the driver at (Right, i).  It leaves exactly when
        `speed + i >= length - 1`, appending its travel time.  Otherwise a
        "Lane Change" driver for which the left window is clear moves to
        (Left, i) with desire "Cruise"; the driver then cruises in lane `t`. */
    method SimRightDriver(i: nat) returns (ghost exits: bool, ghost t: int, ghost q: int)
      requires highway.Valid() && i < highway.length
      requires highway.road[Right][i].Car? && DriverOk(highway.road[Right][i].driver)
      modifies this`data, highway`road, highway.road[Right][i].driver
      ensures var d := old(highway.road[Right][i].driver);
        exits <==> d.speed + i >= highway.length - 1
      ensures var d := old(highway.road[Right][i].driver);
        exits ==>
          && highway.road == Put(old(highway.road), Right, i, Empty)
          && data == old(data) + [currentStep - d.arriveTime]
          && d.desire == old(d.desire)
      ensures var d := old(highway.road[Right][i].driver);
        !exits ==>
          var moves := old(d.desire) == LaneChange && old(highway.SafeLeftLaneChange(i));
          && t == (if moves then Left else Right)
          && q == CruiseTarget(old(highway.road[t]), i, d.speed, d.safeFollow)
          && highway.road == Put(Put(old(highway.road), t, q, Car(d)), Right, i, Empty)
          && d.desire == CruiseDesire(old(highway.road[t]), i, d.speed, d.safeFollow, if moves then Cruise else old(d.desire))
          && (moves ==> old(highway.road[t][i]).Empty? && old(highway.road[t][i + 1]).Empty?)
          && data == old(data)
    {
      var d := highway.Get(Right, i).driver;
      if d.speed + i >= highway.length - 1 {
        highway.Set(Right, i, Empty);
        data := data + [currentStep - d.arriveTime];
        return true, Right, i;
      }
      exits := false;
      ghost var road0 := highway.road;
      if d.desire == LaneChange {
        if highway.SafeLeftLaneChange(i) {
          WindowCovers(road0[Left], i, 0, 2, i);
          WindowCovers(road0[Left], i, 0, 2, i + 1);
          t, q := Left, CruiseTarget(road0[Left], i, d.speed, d.safeFollow);
          highway.Set(Left, i, Car(d));
          highway.Set(Right, i, Empty);
          d.desire := Cruise;
          ClearRunAhead(highway.road[Left], road0[Left], i, d.speed + d.safeFollow);
          SimCruise(Left, i);
          ChangeThenCruise(road0, Right, Left, i, q, Car(d));
        } else {
          t, q := Right, CruiseTarget(road0[Right], i, d.speed, d.safeFollow);
          SimCruise(Right, i);
        }
      } else if d.desire == Cruise {
        t, q := Right, CruiseTarget(road0[Right], i, d.speed, d.safeFollow);
        SimCruise(Right, i);
      }
    }

    /** The update of the driver at (Left, i), the mirror image: a "Lane Change"
        driver can only try the right lane. */
    method SimLeftDriver(i: nat) returns (ghost exits: bool, ghost t: int, ghost q: int)
      requires highway.Valid() && i < highway.length
      requires highway.road[Left][i].Car? && DriverOk(highway.road[Left][i].driver)
      modifies this`data, highway`road, highway.road[Left][i].driver
      ensures var d := old(highway.road[Left][i].driver);
        exits <==> d.speed + i >= highway.length - 1
      ensures var d := old(highway.road[Left][i].driver);
        exits ==>
          && highway.road == Put(old(highway.road), Left, i, Empty)
          && data == old(data) + [currentStep - d.arriveTime]
          && d.desire == old(d.desire)
      ensures var d := old(highway.road[Left][i].driver);
        !exits ==>
          var moves := old(d.desire) == LaneChange && old(highway.SafeRightLaneChange(i));
          && t == (if moves then Right else Left)
          && q == CruiseTarget(old(highway.road[t]), i, d.speed, d.safeFollow)
          && highway.road == Put(Put(old(highway.road), t, q, Car(d)), Left, i, Empty)
          && d.desire == CruiseDesire(old(highway.road[t]), i, d.speed, d.safeFollow, if moves then Cruise else old(d.desire))
          && (moves ==> old(highway.road[t][i]).Empty? && old(highway.road[t][i + 1]).Empty?)
          && data == old(data)
    {
      var d := highway.Get(Left, i).driver;
      if d.speed + i >= highway.length - 1 {
        highway.Set(Left, i, Empty);
        data := data + [currentStep - d.arriveTime];
        return true, Left, i;
      }
      exits := false;
      ghost var road0 := highway.road;
      if d.desire == LaneChange {
        if highway.SafeRightLaneChange(i) {
          WindowCovers(road0[Right], i, 0, 2, i);
          WindowCovers(road0[Right], i, 0, 2, i + 1);
          t, q := Right, CruiseTarget(road0[Right], i, d.speed, d.safeFollow);
          highway.Set(Right, i, Car(d));
          highway.Set(Left, i, Empty);
          d.desire := Cruise;
          ClearRunAhead(highway.road[Right], road0[Right], i, d.speed + d.safeFollow);
          SimCruise(Right, i);
          ChangeThenCruise(road0, Left, Right, i, q, Car(d));
        } else {
          t, q := Left, CruiseTarget(road0[Left], i, d.speed, d.safeFollow);
          SimCruise(Left, i);
        }
      } else if d.desire == Cruise {
        t, q := Left, CruiseTarget(road0[Left], i, d.speed, d.safeFollow);
        SimCruise(Left, i);
      }
    }

    /** The update of the driver at (k, i) by the method of its lane, in the
        terms the sweep needs: it leaves, or it moves to (t, q), strictly ahead,
        in its own lane or (through a free cell beside it) in the other one. */
    method SimDriverIn(k: int, i: nat) returns (ghost exits: bool, ghost t: int, ghost q: int)
      requires highway.Valid() && 0 <= k < 2 && i < highway.length
      requires highway.road[k][i].Car? && DriverOk(highway.road[k][i].driver)
      modifies this`data, highway`road, highway.road[k][i].driver
      ensures var d := old(highway.road[k][i].driver);
        && (exits <==> d.speed + i >= highway.length - 1)
        && (exits ==> highway.road == Put(old(highway.road), k, i, Empty) && data == old(data) + [currentStep - d.arriveTime])
        && (!exits ==>
              && (t == k || t == 1 - k)
              && q == CruiseTarget(old(highway.road[t]), i, d.speed, d.safeFollow)
              && highway.road == Put(Put(old(highway.road), t, q, Car(d)), k, i, Empty)
              && (t != k ==> old(highway.road[t][i]).Empty? && old(highway.road[t][i + 1]).Empty?)
              && data == old(data))
    {
      if k == Left {
        exits, t, q := SimLeftDriver(i);
      } else {
        exits, t, q := SimRightDriver(i);
      }
    }

    /** The sweep of one tick: positions from the end of the road back to 0,
        the left lane before the right one at each position.  Afterwards every
        driver that was on the road either stands in one cell strictly ahead
        of where it was, or has left and has its travel time appended, in the
        order the drivers left; no driver is added and no cell holds a driver
        twice. */
    method ExecuteTimeStep() returns (ghost start: map<Driver, Spot>, ghost now: map<Driver, Spot>, ghost exited: seq<Driver>)
      requires Valid()
      modifies this`data, highway`road, OnRoad(highway.road)
      ensures Valid()
      ensures Swept(old(highway.road), highway.road, start, now, exited)
      ensures data == old(data) + TravelTimes(exited, currentStep)
      ensures OnRoad(highway.road) <= old(OnRoad(highway.road))
      ensures forall e :: e in old(OnRoad(highway.road)) ==> e in OnRoad(highway.road) || e in exited
      ensures forall e :: e in exited ==> e in old(OnRoad(highway.road)) && e !in OnRoad(highway.road)
    {
      ghost var init := highway.road;
      start, now, exited := map[], map[], [];
      Begin(init, 2, highway.length);
      var i := highway.length - 1;
      while i >= 0
        invariant -1 <= i < highway.length
        invariant highway.Valid() && highway.length == HighwayLength
        invariant SweepInv(init, highway.road, 2, highway.length, i, 0, start, now, exited)
        invariant data == old(data) + TravelTimes(exited, currentStep)
      {
        start, now, exited := VisitPosition(init, old(data), i, start, now, exited);
        i := i - 1;
      }
      Finish(init, highway.road, 2, highway.length, start, now, exited);
      SweptAddsNoDriver(init, highway.road, start, now, exited);
      SweptAccountsForAll(init, highway.road, start, now, exited);
    }

    /** The visits at position `i`: the left lane, then the right lane. */
    method VisitPosition(ghost init: Road<Driver>, ghost base: seq<int>, i: int,
                         ghost start: map<Driver, Spot>, ghost now: map<Driver, Spot>, ghost exited: seq<Driver>)
      returns (ghost start': map<Driver, Spot>, ghost now': map<Driver, Spot>, ghost exited': seq<Driver>)
      requires highway.Valid() && highway.length == HighwayLength && 0 <= i
      requires SweepInv(init, highway.road, 2, highway.length, i, 0, start, now, exited)
      requires DriversOk(init)
      requires data == base + TravelTimes(exited, currentStep)
      modifies this`data, highway`road, OnRoad(init)
      ensures highway.Valid()
      ensures SweepInv(init, highway.road, 2, highway.length, i - 1, 0, start', now', exited')
      ensures data == base + TravelTimes(exited', currentStep)
    {
      start', now', exited' := VisitCell(init, base, Left, i, start, now, exited);
      start', now', exited' := VisitCell(init, base, Right, i, start', now', exited');
      NextRow(init, highway.road, 2, highway.length, i, start', now', exited');
    }

    /** The visit of cell (k, i): the update of the driver standing there, if
        any. */
    method VisitCell(ghost init: Road<Driver>, ghost base: seq<int>, k: int, i: int,
                     ghost start: map<Driver, Spot>, ghost now: map<Driver, Spot>, ghost exited: seq<Driver>)
      returns (ghost start': map<Driver, Spot>, ghost now': map<Driver, Spot>, ghost exited': seq<Driver>)
      requires highway.Valid() && highway.length == HighwayLength && 0 <= i && 0 <= k < 2
      requires SweepInv(init, highway.road, 2, highway.length, i, k, start, now, exited)
      requires DriversOk(init)
      requires data == base + TravelTimes(exited, currentStep)
      modifies this`data, highway`road, OnRoad(init)
      ensures highway.Valid()
      ensures SweepInv(init, highway.road, 2, highway.length, i, k + 1, start', now', exited')
      ensures data == base + TravelTimes(exited', currentStep)
    {
      if highway.Get(k, i).Car? {
        FromStart(init, highway.road, k, i, start, now, exited);
        start', now', exited' := VisitDriver(init, base, k, i, start, now, exited);
      } else {
        Skip(init, highway.road, 2, highway.length, i, k, start, now, exited);
        start', now', exited' := start, now, exited;
      }
    }

    /** The driver the sweep is about to visit was on the road when the tick
        began. */
    lemma FromStart(init: Road<Driver>, cur: Road<Driver>, k: int, i: int,
                    start: map<Driver, Spot>, now: map<Driver, Spot>, exited: seq<Driver>)
      requires SweepInv(init, cur, 2, HighwayLength, i, k, start, now, exited)
      requires DriversOk(init) && 0 <= i && 0 <= k < 2 && cur[k][i].Car?
      ensures cur[k][i].driver in OnRoad(init) && DriverOk(cur[k][i].driver)
    {
      Unvisited(init, cur, 2, HighwayLength, i, k, start, now, exited);
      OnRoadHas(init, k, i);
    }

    /** One step of the sweep: the update of the driver at (k, i), carrying the
        sweep invariant across it. */
    method VisitDriver(ghost init: Road<Driver>, ghost base: seq<int>, k: int, i: int,
                       ghost start: map<Driver, Spot>, ghost now: map<Driver, Spot>, ghost exited: seq<Driver>)
      returns (ghost start': map<Driver, Spot>, ghost now': map<Driver, Spot>, ghost exited': seq<Driver>)
      requires highway.Valid() && highway.length == HighwayLength && 0 <= i && 0 <= k < 2
      requires SweepInv(init, highway.road, 2, highway.length, i, k, start, now, exited)
      requires highway.road[k][i].Car? && DriverOk(highway.road[k][i].driver)
      requires data == base + TravelTimes(exited, currentStep)
      modifies this`data, highway`road, highway.road[k][i].driver
      ensures highway.Valid()
      ensures SweepInv(init, highway.road, 2, highway.length, i, k + 1, start', now', exited')
      ensures data == base + TravelTimes(exited', currentStep)
    {
      ghost var cur: Road<Driver> := highway.road;
      ghost var d: Driver := cur[k][i].driver;
      ghost var exits: bool, t: int, q: int;
      exits, t, q := SimDriverIn(k, i);
      VisitStep(init, cur, highway.road, i, k, start, now, exited, base, old(data), data, currentStep, exits, t, q);
      start' := start[d := Spot(k, i)];
      now' := if exits then now else now[d := Spot(t, q)];
      exited' := if exits then exited + [d] else exited;
    }
  }

  /** The sweep invariant and the output carried across the update of the
      driver at (k, i), given what that update did to the road and the output. */
  lemma VisitStep(init: Road<Driver>, cur: Road<Driver>, after: Road<Driver>, i: int, k: int,
                  start: map<Driver, Spot>, now: map<Driver, Spot>, exited: seq<Driver>,
                  base: seq<int>, before: seq<int>, data: seq<int>, step: int, exits: bool, t: int, q: int)
    requires SweepInv(init, cur, 2, HighwayLength, i, k, start, now, exited)
    requires 0 <= i && 0 <= k < 2 && cur[k][i].Car? && DriverOk(cur[k][i].driver)
    requires before == base + TravelTimes(exited, step)
    requires var d := cur[k][i].driver;
      && (exits ==> after == Put(cur, k, i, Empty) && data == before + [step - d.arriveTime])
      && (!exits ==>
            && d.speed + i < HighwayLength - 1
            && (t == k || t == 1 - k)
            && q == CruiseTarget(cur[t], i, d.speed, d.safeFollow)
            && after == Put(Put(cur, t, q, Car(d)), k, i, Empty)
            && (t != k ==> cur[t][i].Empty? && cur[t][i + 1].Empty?)
            && data == before)
    ensures var d := cur[k][i].driver;
      && SweepInv(init, after, 2, HighwayLength, i, k + 1, start[d := Spot(k, i)],
                  if exits then now else now[d := Spot(t, q)], if exits then exited + [d] else exited)
      && data == base + TravelTimes(if exits then exited + [d] else exited, step)
  {
    var d := cur[k][i].driver;
    if exits {
      ExitStep(init, cur, 2, HighwayLength, i, k, start, now, exited);
      TravelTimesSnoc(base, before, data, exited, d, step);
    } else {
      CruiseLandsOnEmpty(cur[t], i, d.speed, d.safeFollow);
      MoveStep(init, cur, 2, HighwayLength, i, k, start, now, exited, t, q);
    }
  }

  /** The window of `i` .. `i+2` with nothing behind is three cells. */
  lemma ThreeCellWindow<D>(lane: seq<Cell<D>>, i: nat)
    requires i + 2 < |lane|
    ensures WindowClear(lane, i, 0, 2) <==> lane[i].Empty? && lane[i + 1].Empty? && lane[i + 2].Empty?
  {
    assert PyIndex(|lane|, i) == i && PyIndex(|lane|, i + 1) == i + 1 && PyIndex(|lane|, i + 2) == i + 2;
    if lane[i].Empty? && lane[i + 1].Empty? && lane[i + 2].Empty? {
      forall j | i <= j <= i + 2 ensures lane[PyIndex(|lane|, j)].Empty? {
        assert j == i || j == i + 1 || j == i + 2;
      }
    }
  }

  /** The travel times of drivers leaving during tick `step`, in the order they
      leave. */
  function TravelTimes(ds: seq<Driver>, step: int): seq<int> {
    if ds == [] then [] else TravelTimes(ds[..|ds| - 1], step) + [step - ds[|ds| - 1].arriveTime]
  }

  /** Appending the travel time of one more exited driver. */
  lemma TravelTimesSnoc(base: seq<int>, before: seq<int>, after: seq<int>, ds: seq<Driver>, d: Driver, step: int)
    requires before == base + TravelTimes(ds, step) && after == before + [step - d.arriveTime]
    ensures after == base + TravelTimes(ds + [d], step)
  {
    assert (ds + [d])[..|ds|] == ds;
  }
}
