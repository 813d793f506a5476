/** The N-lane engine of highway_sim_V2.py: drivers are objects whose desire and
    exit fields change, the highway owns the grid of cells, and one tick sweeps
    the grid from the end of the road back to its start.  Every random draw is
    an input: `preferLeft` is the outcome of the draw `r <= 0.5` of the driver
    being updated. */
module HighwayV2 {
  import opened Roads
  import opened Sweep
  import opened LaneChoice

  const Fast := 5
  const Slow := 4
  const HighwayLength := 110
  const NumLanes := 4
  const HumanSafeFollow := 4
  const SdcSafeFollow := 2
  const LaneChangeSafeBack := Fast
  const LaneChangeSafeForward := Fast

  /** The row a driver contributes to the output when it leaves the road (the
      float average speed is not part of the model). */
  datatype ExitRecord = ExitRecord(id: int, speed: int, isHuman: bool, arriveTime: int,
                                   finalTime: int, travelTime: int, finalDist: int)

  class Driver {
    const id: int
    const speed: nat
    const isHuman: bool
    const safeFollow: nat
    const arriveTime: int
    var desire: Desire
    var finalTime: int
    var travelTime: int
    var finalDist: int

    /** A new driver cruises, and keeps the follow distance of its kind. */
    constructor (carId: int, speed: nat, arriveTime: int, isHuman: bool)
      ensures this.id == carId && this.speed == speed && this.arriveTime == arriveTime
      ensures this.isHuman == isHuman
      ensures safeFollow == if isHuman then HumanSafeFollow else SdcSafeFollow
      ensures desire == Cruise && finalTime == 0 && travelTime == 0 && finalDist == 0
    {
      id := carId;
      this.speed := speed;
      this.isHuman := isHuman;
      if isHuman {
        safeFollow := HumanSafeFollow;
      } else {
        safeFollow := SdcSafeFollow;
      }
      this.arriveTime := arriveTime;
      desire := Cruise;
      finalTime := 0;
      travelTime := 0;
      finalDist := 0;
    }

    function OutputData(): ExitRecord
      reads this
    {
      ExitRecord(id, speed, isHuman, arriveTime, finalTime, travelTime, finalDist)
    }
  }

  /** The record of driver `d` leaving the road during tick `step`. */
  function ExitOf(d: Driver, step: int): ExitRecord {
    ExitRecord(d.id, d.speed, d.isHuman, d.arriveTime, step, step - d.arriveTime, HighwayLength)
  }

  /** The records of drivers leaving, in the order they leave. */
  function Records(ds: seq<Driver>, step: int): seq<ExitRecord> {
    seq(|ds|, j requires 0 <= j < |ds| => ExitOf(ds[j], step))
  }

  /** What the engine assumes of every driver on the road: a speed the source
      creates, and no half-finished lane change. */
  ghost predicate DriverOk(d: Driver)
    reads d
  {
    (d.speed == Fast || d.speed == Slow) && (d.desire == Cruise || d.desire == LaneChange)
  }

  ghost predicate AllOk(ds: set<Driver>)
    reads ds
  {
    forall e :: e in ds ==> DriverOk(e)
  }

  ghost predicate DriversOk(road: Road<Driver>)
    reads OnRoad(road)
  {
    AllOk(OnRoad(road))
  }

  class Highway {
    const numLanes: nat
    const length: nat
    var road: Road<Driver>

    ghost predicate Valid()
      reads this
    {
      Shaped(road, numLanes, length)
    }

    /** An empty highway of `numLanes` lanes of `length` cells. */
    constructor (length: nat, numLanes: nat)
      ensures this.length == length && this.numLanes == numLanes && Valid()
      ensures forall l, p :: 0 <= l < numLanes && 0 <= p < length ==> road[l][p] == Empty
    {
      this.numLanes := numLanes;
      var r: Road<Driver> := [];
      for n := 0 to numLanes
        invariant |r| == n && forall l :: 0 <= l < n ==> r[l] == []
      {
        r := r + [[]];
      }
      this.length := length;
      for n := 0 to length
        invariant Shaped(r, numLanes, n)
        invariant forall l, p :: 0 <= l < numLanes && 0 <= p < n ==> r[l][p] == Empty
      {
        for l := 0 to numLanes
          invariant |r| == numLanes
          invariant forall m :: 0 <= m < l ==> |r[m]| == n + 1
          invariant forall m :: l <= m < numLanes ==> |r[m]| == n
          invariant forall m, p :: 0 <= m < numLanes && 0 <= p < |r[m]| ==> r[m][p] == Empty
        {
          r := r[l := r[l] + [Empty]];
        }
      }
      road := r;
    }

    function Get(lane: int, index: int): Cell<Driver>
      reads this
      requires 0 <= lane < |road| && 0 <= index < |road[lane]|
    {
      road[lane][index]
    }

    method Set(lane: int, index: int, value: Cell<Driver>)
      requires 0 <= lane < |road| && 0 <= index < |road[lane]|
      modifies this`road
      ensures road == Put(old(road), lane, index, value)
    {
      road := road[lane := road[lane][index := value]];
    }

    method SafeDistanceWithin(lane: int, index: nat, k: nat) returns (x: nat)
      requires Valid() && 0 <= lane < numLanes
      ensures x == ClearRun(road[lane], index, k)
    {
      x := Roads.SafeDistanceWithin(road[lane], index, k);
    }

    /** The lane on the right may be entered at `i`. */
    ghost predicate RightSafe(lane: int, i: nat)
      reads this
      requires Valid() && 0 <= lane < numLanes && i + LaneChangeSafeForward < length
    {
      lane != numLanes - 1 && WindowClear(road[lane + 1], i, LaneChangeSafeBack, LaneChangeSafeForward)
    }

    /** The lane on the left may be entered at `i`. */
    ghost predicate LeftSafe(lane: int, i: nat)
      reads this
      requires Valid() && 0 <= lane < numLanes && i + LaneChangeSafeForward < length
    {
      lane != 0 && WindowClear(road[lane - 1], i, LaneChangeSafeBack, LaneChangeSafeForward)
    }

    /** Never from the last lane; otherwise the cell beside the driver and the
        window around it in the lane on the right are free. */
    method SafeRightLaneChange(lane: int, i: nat) returns (safe: bool)
      requires Valid() && 0 <= lane < numLanes
      requires lane != numLanes - 1 ==> i + LaneChangeSafeForward < length
      ensures safe <==> lane != numLanes - 1
                        && WindowClear(road[lane + 1], i, LaneChangeSafeBack, LaneChangeSafeForward)
    {
      if lane == numLanes - 1 {
        return false;
      }
      safe := ScanWindow(road[lane + 1], i, LaneChangeSafeBack, LaneChangeSafeForward);
    }

    /** Never from lane 0; otherwise as on the right, in the lane on the left. */
    method SafeLeftLaneChange(lane: int, i: nat) returns (safe: bool)
      requires Valid() && 0 <= lane < numLanes
      requires lane != 0 ==> i + LaneChangeSafeForward < length
      ensures safe <==> lane != 0 && WindowClear(road[lane - 1], i, LaneChangeSafeBack, LaneChangeSafeForward)
    {
      if lane == 0 {
        return false;
      }
      safe := ScanWindow(road[lane - 1], i, LaneChangeSafeBack, LaneChangeSafeForward);
    }
  }

  class Simulation {
    const highway: Highway
    const timeSteps: int
    var currentStep: int
    var numCars: int
    var data: seq<ExitRecord>

    ghost predicate Valid()
      reads this, highway, OnRoad(highway.road)
    {
      && highway.Valid() && highway.length == HighwayLength && highway.numLanes == NumLanes
      && SingleOccupancy(highway.road)
      && DriversOk(highway.road)
    }

    constructor (timeSteps: int)
      ensures this.timeSteps == timeSteps && currentStep == 0 && numCars == 0 && data == []
      ensures fresh(highway) && OnRoad(highway.road) == {} && Valid()
    {
      highway := new Highway(HighwayLength, NumLanes);
      this.timeSteps := timeSteps;
      currentStep := 0;
      numCars := 0;
      data := [];
    }

    /** The cruise of the driver at (lane, i): it lands on the cell chosen by
        the gap scan in its own lane, the origin is cleared, and its desire
        becomes "Lane Change" unless the whole window was clear. */
    method SimCruise(lane: int, i: nat)
      requires highway.Valid() && 0 <= lane < highway.numLanes && i < highway.length
      requires highway.road[lane][i].Car?
      requires i + 1 < highway.length && i + highway.road[lane][i].driver.speed < highway.length
      modifies highway`road, highway.road[lane][i].driver`desire
      ensures var d := old(highway.road[lane][i].driver);
        && highway.road == Put(Put(old(highway.road), lane, CruiseTarget(old(highway.road[lane]), i, d.speed, d.safeFollow), Car(d)), lane, i, Empty)
        && d.desire == CruiseDesire(old(highway.road[lane]), i, d.speed, d.safeFollow, old(d.desire))
    {
      var d := highway.Get(lane, i).driver;
      var x := highway.SafeDistanceWithin(lane, i, d.speed + d.safeFollow);
      if x == d.speed + d.safeFollow {
        highway.Set(lane, i + d.speed, Car(d));
      } else if x > d.safeFollow {
        d.desire := LaneChange;
        highway.Set(lane, i + x - d.safeFollow, Car(d));
      } else {
        d.desire := LaneChange;
        highway.Set(lane, i + 1, Car(d));
      }
      highway.Set(lane, i, Empty);
    }

    /** The direction choice of a driver that wants to change lanes (the
        first safe side, the preferred one first); only its desire changes. */
    method ChooseDirection(lane: int, i: nat, preferLeft: bool)
      requires highway.Valid() && 0 <= lane < highway.numLanes && i + LaneChangeSafeForward < highway.length
      requires highway.road[lane][i].Car?
      modifies highway.road[lane][i].driver`desire
      ensures var d := highway.road[lane][i].driver;
        d.desire == Resolve(old(d.desire), preferLeft, highway.LeftSafe(lane, i), highway.RightSafe(lane, i))
    {
      var d := highway.Get(lane, i).driver;
      if d.desire == LaneChange && preferLeft {
        var left := highway.SafeLeftLaneChange(lane, i);
        if left {
          d.desire := LaneChangeLeft;
        } else {
          var right := highway.SafeRightLaneChange(lane, i);
          if right {
            d.desire := LaneChangeRight;
          }
        }
      } else if d.desire == LaneChange && !preferLeft {
        var right := highway.SafeRightLaneChange(lane, i);
        if right {
          d.desire := LaneChangeRight;
        } else {
          var left := highway.SafeLeftLaneChange(lane, i);
          if left {
            d.desire := LaneChangeLeft;
          }
        }
      }
    }

    /** A lane change to (t, i), whose cell and the one ahead are free: the
        driver takes the cell beside it with desire "Cruise", its old cell is
        cleared, and it cruises in lane `t`.  The road ends as after one move
        from the old cell to the landing cell in lane `t`. */
    method ChangeLane(lane: int, t: int, i: nat)
      requires highway.Valid() && 0 <= lane < highway.numLanes && 0 <= t < highway.numLanes && t != lane
      requires i + 1 < highway.length && highway.road[lane][i].Car?
      requires 1 <= highway.road[lane][i].driver.speed && i + highway.road[lane][i].driver.speed < highway.length
      requires highway.road[t][i].Empty? && highway.road[t][i + 1].Empty?
      modifies highway`road, highway.road[lane][i].driver`desire
      ensures var d := old(highway.road[lane][i].driver);
        && highway.road == Put(Put(old(highway.road), t, CruiseTarget(old(highway.road[t]), i, d.speed, d.safeFollow), Car(d)), lane, i, Empty)
        && d.desire == CruiseDesire(old(highway.road[t]), i, d.speed, d.safeFollow, Cruise)
    {
      ghost var road0 := highway.road;
      var d := highway.Get(lane, i).driver;
      ghost var q := CruiseTarget(road0[t], i, d.speed, d.safeFollow);
      highway.Set(t, i, Car(d));
      highway.Set(lane, i, Empty);
      d.desire := Cruise;
      ClearRunAhead(highway.road[t], road0[t], i, d.speed + d.safeFollow);
      SimCruise(t, i);
      ChangeThenCruise(road0, lane, t, i, q, Car(d));
    }

    /** The update of the driver at (lane, i).  It leaves the road exactly when
        `speed + i >= length - 1`, and then only its cell, its exit fields and
        the output change.  Otherwise a "Lane Change" driver takes the safe
        side it prefers, else the other safe side, else stays; the driver ends
        in lane `t` at the cell `q` chosen by the gap scan of lane `t`. */
    method SimDriver(lane: int, i: nat, preferLeft: bool) returns (ghost exits: bool, ghost t: int, ghost q: int)
      requires highway.Valid() && highway.length == HighwayLength
      requires 0 <= lane < highway.numLanes && i < highway.length
      requires highway.road[lane][i].Car? && DriverOk(highway.road[lane][i].driver)
      modifies this`data, highway`road, highway.road[lane][i].driver
      ensures var d := old(highway.road[lane][i].driver);
        exits <==> d.speed + i >= highway.length - 1
      ensures var d := old(highway.road[lane][i].driver);
        exits ==>
          && highway.road == Put(old(highway.road), lane, i, Empty)
          && d.finalTime == currentStep && d.finalDist == HighwayLength
          && d.travelTime == currentStep - d.arriveTime
          && data == old(data) + [ExitOf(d, currentStep)]
          && d.desire == old(d.desire)
      ensures var d := old(highway.road[lane][i].driver);
        !exits ==>
          && t == LaneAfter(lane, Resolve(old(d.desire), preferLeft, old(highway.LeftSafe(lane, i)), old(highway.RightSafe(lane, i))))
          && 0 <= t < highway.numLanes
          && q == CruiseTarget(old(highway.road[t]), i, d.speed, d.safeFollow)
          && highway.road == Put(Put(old(highway.road), t, q, Car(d)), lane, i, Empty)
          && d.desire == CruiseDesire(old(highway.road[t]), i, d.speed, d.safeFollow, if t == lane then old(d.desire) else Cruise)
          && (t != lane ==> old(highway.road[t][i]).Empty? && old(highway.road[t][i + 1]).Empty?)
          && data == old(data)
          && d.finalTime == old(d.finalTime) && d.finalDist == old(d.finalDist) && d.travelTime == old(d.travelTime)
    {
      var d := highway.Get(lane, i).driver;
      if d.speed + i >= highway.length - 1 {
        highway.Set(lane, i, Empty);
        d.finalTime := currentStep;
        d.finalDist := HighwayLength;
        d.travelTime := d.finalTime - d.arriveTime;
        data := data + [d.OutputData()];
        return true, lane, i;
      }
      exits := false;
      ghost var road0 := highway.road;
      ChooseDirection(lane, i, preferLeft);
      t := LaneAfter(lane, d.desire);
      q := CruiseTarget(road0[t], i, d.speed, d.safeFollow);
      if d.desire == LaneChangeRight || d.desire == LaneChangeLeft {
        WindowCovers(road0[t], i, LaneChangeSafeBack, LaneChangeSafeForward, i);
        WindowCovers(road0[t], i, LaneChangeSafeBack, LaneChangeSafeForward, i + 1);
      }
      if d.desire == LaneChangeRight {
        ChangeLane(lane, lane + 1, i);
      } else if d.desire == LaneChangeLeft {
        ChangeLane(lane, lane - 1, i);
      } else if d.desire == Cruise || d.desire == LaneChange {
        SimCruise(lane, i);
      }
    }

    /** The sweep of one tick: positions from the end of the road back to 0,
        lanes in ascending order at each position, every driver updated once.
        Afterwards every driver that was on the road either stands in one cell
        strictly ahead of where it was, at most one lane away, or has left and
        has its record appended, in the order the drivers left; no driver is
        added and no cell holds a driver twice. */
    method ExecuteTimeStep(preferLeft: (int, int) -> bool)
      returns (ghost start: map<Driver, Spot>, ghost now: map<Driver, Spot>, ghost exited: seq<Driver>)
      requires Valid()
      modifies this`data, highway`road, OnRoad(highway.road)
      ensures Valid()
      ensures Swept(old(highway.road), highway.road, start, now, exited)
      ensures data == old(data) + Records(exited, currentStep)
      ensures OnRoad(highway.road) <= old(OnRoad(highway.road))
      ensures forall e :: e in old(OnRoad(highway.road)) ==> e in OnRoad(highway.road) || e in exited
      ensures forall e :: e in exited ==> e in old(OnRoad(highway.road)) && e !in OnRoad(highway.road)
    {
      ghost var init := highway.road;
      start, now, exited := map[], map[], [];
      Begin(init, highway.numLanes, highway.length);
      var i := highway.length - 1;
      while i >= 0
        invariant -1 <= i < highway.length
        invariant highway.length == HighwayLength && highway.numLanes == NumLanes
        invariant SweepInv(init, highway.road, highway.numLanes, highway.length, i, 0, start, now, exited)
        invariant AllOk(OnRoad(init))
        invariant data == old(data) + Records(exited, currentStep)
      {
        start, now, exited := VisitPosition(init, old(data), i, preferLeft, start, now, exited);
        i := i - 1;
      }
      Finish(init, highway.road, highway.numLanes, highway.length, start, now, exited);
      SweptAddsNoDriver(init, highway.road, start, now, exited);
      SweptAccountsForAll(init, highway.road, start, now, exited);
    }

    /** The visits at position `i`, lanes in ascending order. */
    method VisitPosition(ghost init: Road<Driver>, ghost base: seq<ExitRecord>, i: int, preferLeft: (int, int) -> bool,
                         ghost start: map<Driver, Spot>, ghost now: map<Driver, Spot>, ghost exited: seq<Driver>)
      returns (ghost start': map<Driver, Spot>, ghost now': map<Driver, Spot>, ghost exited': seq<Driver>)
      requires highway.Valid() && highway.length == HighwayLength && highway.numLanes == NumLanes && 0 <= i
      requires SweepInv(init, highway.road, highway.numLanes, highway.length, i, 0, start, now, exited)
      requires AllOk(OnRoad(init))
      requires data == base + Records(exited, currentStep)
      modifies this`data, highway`road, OnRoad(init)
      ensures highway.Valid()
      ensures SweepInv(init, highway.road, highway.numLanes, highway.length, i - 1, 0, start', now', exited')
      ensures AllOk(OnRoad(init))
      ensures data == base + Records(exited', currentStep)
    {
      start', now', exited' := start, now, exited;
      var k := 0;
      while k < highway.numLanes
        invariant 0 <= k <= highway.numLanes
        invariant highway.Valid()
        invariant SweepInv(init, highway.road, highway.numLanes, highway.length, i, k, start', now', exited')
        invariant AllOk(OnRoad(init))
        invariant data == base + Records(exited', currentStep)
      {
        start', now', exited' := VisitCell(init, base, k, i, preferLeft(k, i), start', now', exited');
        k := k + 1;
      }
      NextRow(init, highway.road, highway.numLanes, highway.length, i, start', now', exited');
    }

    /** The visit of cell (k, i): the update of the driver standing there, if
        any. */
    method VisitCell(ghost init: Road<Driver>, ghost base: seq<ExitRecord>, k: int, i: int, preferLeft: bool,
                     ghost start: map<Driver, Spot>, ghost now: map<Driver, Spot>, ghost exited: seq<Driver>)
      returns (ghost start': map<Driver, Spot>, ghost now': map<Driver, Spot>, ghost exited': seq<Driver>)
      requires highway.Valid() && highway.length == HighwayLength && highway.numLanes == NumLanes && 0 <= i && 0 <= k < highway.numLanes
      requires SweepInv(init, highway.road, highway.numLanes, highway.length, i, k, start, now, exited)
      requires AllOk(OnRoad(init))
      requires data == base + Records(exited, currentStep)
      modifies this`data, highway`road, OnRoad(init)
      ensures highway.Valid()
      ensures SweepInv(init, highway.road, highway.numLanes, highway.length, i, k + 1, start', now', exited')
      ensures AllOk(OnRoad(init))
      ensures data == base + Records(exited', currentStep)
    {
      if highway.Get(k, i).Car? {
        Unvisited(init, highway.road, highway.numLanes, highway.length, i, k, start, now, exited);
        OnRoadHas(init, k, i);
        start', now', exited' := VisitDriver(init, base, k, i, preferLeft, start, now, exited);
      } else {
        Skip(init, highway.road, highway.numLanes, highway.length, i, k, start, now, exited);
        start', now', exited' := start, now, exited;
      }
    }

    /** One step of the sweep: the update of the driver at (k, i), carrying the
        sweep invariant across it. */
    method VisitDriver(ghost init: Road<Driver>, ghost base: seq<ExitRecord>, k: int, i: int, preferLeft: bool,
                       ghost start: map<Driver, Spot>, ghost now: map<Driver, Spot>, ghost exited: seq<Driver>)
      returns (ghost start': map<Driver, Spot>, ghost now': map<Driver, Spot>, ghost exited': seq<Driver>)
      requires highway.Valid() && highway.length == HighwayLength && highway.numLanes == NumLanes && 0 <= i && 0 <= k < highway.numLanes
      requires SweepInv(init, highway.road, highway.numLanes, highway.length, i, k, start, now, exited)
      requires highway.road[k][i].Car? && highway.road[k][i].driver in OnRoad(init) && AllOk(OnRoad(init))
      requires data == base + Records(exited, currentStep)
      modifies this`data, highway`road, highway.road[k][i].driver
      ensures highway.Valid()
      ensures SweepInv(init, highway.road, highway.numLanes, highway.length, i, k + 1, start', now', exited')
      ensures AllOk(OnRoad(init))
      ensures data == base + Records(exited', currentStep)
    {
      ghost var cur: Road<Driver> := highway.road;
      ghost var d: Driver := cur[k][i].driver;
      ghost var exits: bool, t: int, q: int;
      exits, t, q := SimDriver(k, i, preferLeft);
      VisitStep(init, cur, highway.road, i, k, start, now, exited, base, old(data), data, currentStep, exits, t, q);
      start' := start[d := Spot(k, i)];
      now' := if exits then now else now[d := Spot(t, q)];
      exited' := if exits then exited + [d] else exited;
      assert d.desire == Cruise || d.desire == LaneChange;
      assert forall e :: e in OnRoad(init) && e != d ==> e.desire == old(e.desire);
    }
  }

  /** The sweep invariant and the output carried across the update of the
      driver at (k, i), given what that update did to the road and the output. */
  lemma VisitStep(init: Road<Driver>, cur: Road<Driver>, after: Road<Driver>, i: int, k: int,
                  start: map<Driver, Spot>, now: map<Driver, Spot>, exited: seq<Driver>,
                  base: seq<ExitRecord>, before: seq<ExitRecord>, data: seq<ExitRecord>, step: int,
                  exits: bool, t: int, q: int)
    requires SweepInv(init, cur, NumLanes, HighwayLength, i, k, start, now, exited)
    requires 0 <= i && 0 <= k < NumLanes && cur[k][i].Car?
    requires cur[k][i].driver.speed == Fast || cur[k][i].driver.speed == Slow
    requires before == base + Records(exited, step)
    requires var d := cur[k][i].driver;
      && (exits ==> after == Put(cur, k, i, Empty) && data == before + [ExitOf(d, step)])
      && (!exits ==>
            && d.speed + i < HighwayLength - 1
            && 0 <= t < NumLanes && k - 1 <= t <= k + 1
            && q == CruiseTarget(cur[t], i, d.speed, d.safeFollow)
            && after == Put(Put(cur, t, q, Car(d)), k, i, Empty)
            && (t != k ==> cur[t][i].Empty? && cur[t][i + 1].Empty?)
            && data == before)
    ensures var d := cur[k][i].driver;
      && SweepInv(init, after, NumLanes, HighwayLength, i, k + 1, start[d := Spot(k, i)],
                  if exits then now else now[d := Spot(t, q)], if exits then exited + [d] else exited)
      && data == base + Records(if exits then exited + [d] else exited, step)
  {
    var d := cur[k][i].driver;
    if exits {
      ExitStep(init, cur, NumLanes, HighwayLength, i, k, start, now, exited);
      assert Records(exited + [d], step) == Records(exited, step) + [ExitOf(d, step)];
    } else {
      CruiseLandsOnEmpty(cur[t], i, d.speed, d.safeFollow);
      MoveStep(init, cur, NumLanes, HighwayLength, i, k, start, now, exited, t, q);
    }
  }
}
