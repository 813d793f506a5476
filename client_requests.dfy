/** The engine of sim_client_requests.py: three lanes for every car plus one
    lane reserved for self-driving cars, drivers that may be drunk, and a log
    of incidents.  Every random draw is an input.  A driver that wants to
    change lanes draws one number that decides both whether an incident is
    logged and which side it prefers (a `Draw`); every cruise makes a draw of
    its own, given as a boolean "below the driver's incident threshold". */
module ClientRequests {
  import opened Roads
  import opened Sweep
  import opened LaneChoice

  const Fast := 5
  const Slow := 4
  const HighwayLength := 110
  const NumDefLanes := 3
  const NumSdLanes := 1
  const HumanSafeFollow := 4
  const SdcSafeFollow := 2
  const LaneChangeSafeBack := Fast
  const LaneChangeSafeForward := Fast

  /** The lane of self-driving cars is the one after the default lanes. */
  const SdLane := NumDefLanes

  /** Where the draw of a driver that wants to change lanes falls: below its
      incident threshold (which lies below one half, so the left side is then
      preferred too), on the left half without an incident, or on the right
      half. */
  datatype Draw = BelowIncident | LeftSide | RightSide

  /** The row a driver contributes to the output when it leaves the road (the
      float average speed is not part of the model). */
  datatype ExitRecord = ExitRecord(id: int, speed: int, isHuman: bool, arriveTime: int,
                                   finalTime: int, travelTime: int, finalDist: int)

  class Driver {
    const id: int
    const speed: nat
    const isHuman: bool
    const isDrunk: bool
    const safeFollow: nat
    const arriveTime: int
    var desire: Desire
    var finalTime: int
    var travelTime: int
    var finalDist: int

    /** A new driver cruises, and keeps the follow distance of its kind. */
    constructor (carId: int, speed: nat, arriveTime: int, isHuman: bool, isDrunk: bool)
      ensures this.id == carId && this.speed == speed && this.arriveTime == arriveTime
      ensures this.isHuman == isHuman && this.isDrunk == isDrunk
      ensures safeFollow == if isHuman then HumanSafeFollow else SdcSafeFollow
      ensures desire == Cruise && finalTime == 0 && travelTime == 0 && finalDist == 0
    {
      id := carId;
      desire := Cruise;
      this.isHuman := isHuman;
      this.speed := speed;
      this.isDrunk := isDrunk;
      if isHuman {
        safeFollow := HumanSafeFollow;
      } else {
        safeFollow := SdcSafeFollow;
      }
      this.arriveTime := arriveTime;
      finalTime := 0;
      travelTime := 0;
      finalDist := 0;
    }

    function OutputData(): ExitRecord
      reads this
    {
      ExitRecord(id, speed, isHuman, arriveTime, finalTime, travelTime, finalDist)
    }
  }

  /** The record of driver `d` leaving the road during tick `step`. */
  function ExitOf(d: Driver, step: int): ExitRecord {
    ExitRecord(d.id, d.speed, d.isHuman, d.arriveTime, step, step - d.arriveTime, HighwayLength)
  }

  /** The records of drivers leaving, in the order they leave. */
  function Records(ds: seq<Driver>, step: int): seq<ExitRecord> {
    seq(|ds|, j requires 0 <= j < |ds| => ExitOf(ds[j], step))
  }

  /** The entry an incident roll adds to the log: the driver's speed, or nothing. */
  function Logged(hit: bool, speed: int): seq<int> {
    if hit then [speed] else []
  }

  /** `crashes` is `base` followed by speeds of drivers. */
  ghost predicate CrashLog(base: seq<int>, crashes: seq<int>) {
    && |base| <= |crashes| && crashes[..|base|] == base
    && forall j :: |base| <= j < |crashes| ==> crashes[j] == Fast || crashes[j] == Slow
  }

  /** What the engine assumes of every driver on the road: a speed the source
      creates, and no half-finished lane change. */
  ghost predicate DriverOk(d: Driver)
    reads d
  {
    (d.speed == Fast || d.speed == Slow) && (d.desire == Cruise || d.desire == LaneChange)
  }

  ghost predicate AllOk(ds: set<Driver>)
    reads ds
  {
    forall e :: e in ds ==> DriverOk(e)
  }

  /** No car in lane `l`. */
  ghost predicate LaneEmpty<D>(road: Road<D>, l: int)
    requires 0 <= l < |road|
  {
    forall p :: 0 <= p < |road[l]| ==> road[l][p].Empty?
  }

  class Highway {
    const numDefLanes: nat
    const numSdLanes: nat
    const length: nat
    var road: Road<Driver>

    ghost predicate Valid()
      reads this
    {
      Shaped(road, numDefLanes + numSdLanes, length)
    }

    /** An empty highway of `numDefLanes + numSdLanes` lanes of `length` cells. */
    constructor (length: nat, numDefLanes: nat, numSdLanes: nat)
      ensures this.length == length && this.numDefLanes == numDefLanes && this.numSdLanes == numSdLanes
      ensures Valid()
      ensures forall l, p :: 0 <= l < numDefLanes + numSdLanes && 0 <= p < length ==> road[l][p] == Empty
    {
      this.numDefLanes := numDefLanes;
      this.numSdLanes := numSdLanes;
      var lanes := numDefLanes + numSdLanes;
      var r: Road<Driver> := [];
      for n := 0 to lanes
        invariant |r| == n && forall l :: 0 <= l < n ==> r[l] == []
      {
        r := r + [[]];
      }
      this.length := length;
      for n := 0 to length
        invariant Shaped(r, lanes, n)
        invariant forall l, p :: 0 <= l < lanes && 0 <= p < n ==> r[l][p] == Empty
      {
        for l := 0 to lanes
          invariant |r| == lanes
          invariant forall m :: 0 <= m < l ==> |r[m]| == n + 1
          invariant forall m :: l <= m < lanes ==> |r[m]| == n
          invariant forall m, p :: 0 <= m < lanes && 0 <= p < |r[m]| ==> r[m][p] == Empty
        {
          r := r[l := r[l] + [Empty]];
        }
      }
      road := r;
    }

    function Get(lane: int, index: int): Cell<Driver>
      reads this
      requires 0 <= lane < |road| && 0 <= index < |road[lane]|
    {
      road[lane][index]
    }

    method Set(lane: int, index: int, value: Cell<Driver>)
      requires 0 <= lane < |road| && 0 <= index < |road[lane]|
      modifies this`road
      ensures road == Put(old(road), lane, index, value)
    {
      road := road[lane := road[lane][index := value]];
    }

    method SafeDistanceWithin(lane: int, index: nat, k: nat) returns (x: nat)
      requires Valid() && 0 <= lane < numDefLanes + numSdLanes
      ensures x == ClearRun(road[lane], index, k)
    {
      x := Roads.SafeDistanceWithin(road[lane], index, k);
    }

    /** The lane on the right may be entered at `i`; never from the last
        default lane, so no car ever moves into the self-driving lane. */
    ghost predicate RightSafe(lane: int, i: nat)
      reads this
      requires Valid() && 0 <= lane < numDefLanes && i + LaneChangeSafeForward < length
    {
      lane != numDefLanes - 1 && WindowClear(road[lane + 1], i, LaneChangeSafeBack, LaneChangeSafeForward)
    }

    /** The lane on the left may be entered at `i`. */
    ghost predicate LeftSafe(lane: int, i: nat)
      reads this
      requires Valid() && 0 <= lane < numDefLanes + numSdLanes && i + LaneChangeSafeForward < length
    {
      lane != 0 && WindowClear(road[lane - 1], i, LaneChangeSafeBack, LaneChangeSafeForward)
    }

    /** Never from the last default lane; otherwise the cell beside the driver
        and the window around it in the lane on the right are free.  From any
        other lane there must be a lane on the right to look at. */
    method SafeRightLaneChange(lane: int, i: nat) returns (safe: bool)
      requires Valid() && 0 <= lane < numDefLanes + numSdLanes
      requires lane != numDefLanes - 1 ==> lane + 1 < numDefLanes + numSdLanes && i + LaneChangeSafeForward < length
      ensures safe <==> lane != numDefLanes - 1
                        && WindowClear(road[lane + 1], i, LaneChangeSafeBack, LaneChangeSafeForward)
    {
      if lane == numDefLanes - 1 {
        return false;
      }
      safe := ScanWindow(road[lane + 1], i, LaneChangeSafeBack, LaneChangeSafeForward);
    }

    /** Never from lane 0; otherwise as on the right, in the lane on the left. */
    method SafeLeftLaneChange(lane: int, i: nat) returns (safe: bool)
      requires Valid() && 0 <= lane < numDefLanes + numSdLanes
      requires lane != 0 ==> i + LaneChangeSafeForward < length
      ensures safe <==> lane != 0 && WindowClear(road[lane - 1], i, LaneChangeSafeBack, LaneChangeSafeForward)
    {
      if lane == 0 {
        return false;
      }
      safe := ScanWindow(road[lane - 1], i, LaneChangeSafeBack, LaneChangeSafeForward);
    }
  }

  // ---------------------------------------------------------------------------
  // The cruise as written, and as evidently intended

  /** The road after the cruise as written.  The movement branches write the
      driver at full speed or `follow` cells behind the next car, and do
      nothing when the gap is at most `follow`; the incident roll follows,
      and its last branch (a sober driver without an incident) writes the
      driver one cell ahead as well; then the origin is cleared. */
  function CruiseAsWritten<D>(road: Road<D>, lane: int, i: nat, speed: nat, follow: nat, drunk: bool, hit: bool): Road<D>
    requires 0 <= lane < |road| && i + speed < |road[lane]| && i + 1 < |road[lane]|
  {
    var c := road[lane][i];
    var x := ClearRun(road[lane], i, speed + follow);
    var moved := if x == speed + follow then Put(road, lane, i + speed, c)
                 else if x > follow then Put(road, lane, i + x - follow, c)
                 else road;
    var stepped := if !drunk && !hit then Put(moved, lane, i + 1, c) else moved;
    Put(stepped, lane, i, Empty)
  }

  /** The desire after the cruise as written. */
  function DesireAsWritten<D>(lane: seq<Cell<D>>, i: nat, speed: nat, follow: nat, drunk: bool, hit: bool, before: Desire): Desire {
    var x := ClearRun(lane, i, speed + follow);
    if (!drunk && !hit) || (x != speed + follow && x > follow) then LaneChange else before
  }

  /** A sober driver without an incident and with the whole window clear ends
      up in two cells: at full speed and one cell ahead. */
  lemma AsWrittenDuplicates<D>(road: Road<D>, lane: int, i: nat, speed: nat, follow: nat)
    requires 0 <= lane < |road| && 2 <= speed && i + speed < |road[lane]| && road[lane][i].Car?
    requires ClearRun(road[lane], i, speed + follow) == speed + follow
    ensures var r := CruiseAsWritten(road, lane, i, speed, follow, false, false);
      && r[lane][i + speed] == road[lane][i] && r[lane][i + 1] == road[lane][i]
      && !SingleOccupancy(r)
  {
    var r := CruiseAsWritten(road, lane, i, speed, follow, false, false);
    assert r[lane][i + speed] == road[lane][i] && r[lane][i + 1] == road[lane][i];
  }

  /** The same in the partial branch: a sober driver without an incident that
      was slowed down by a car further ahead stands `follow` cells behind it
      and one cell ahead of where it was. */
  lemma AsWrittenDuplicatesPartial<D>(road: Road<D>, lane: int, i: nat, speed: nat, follow: nat)
    requires 0 <= lane < |road| && i + speed < |road[lane]| && road[lane][i].Car?
    requires follow + 1 < ClearRun(road[lane], i, speed + follow) < speed + follow
    ensures var x := ClearRun(road[lane], i, speed + follow);
      var r := CruiseAsWritten(road, lane, i, speed, follow, false, false);
      && r[lane][i + x - follow] == road[lane][i] && r[lane][i + 1] == road[lane][i]
      && !SingleOccupancy(r)
  {
    var x := ClearRun(road[lane], i, speed + follow);
    var r := CruiseAsWritten(road, lane, i, speed, follow, false, false);
    assert r[lane][i + x - follow] == road[lane][i] && r[lane][i + 1] == road[lane][i];
  }

  /** A drunk driver, or one whose roll is an incident, that has at most
      `follow` free cells ahead is written nowhere: it leaves the road without
      passing the exit. */
  lemma AsWrittenDrops<D>(road: Road<D>, lane: int, i: nat, speed: nat, follow: nat, drunk: bool, hit: bool)
    requires SingleOccupancy(road)
    requires 0 <= lane < |road| && i + speed < |road[lane]| && i + 1 < |road[lane]| && road[lane][i].Car?
    requires 1 <= speed && ClearRun(road[lane], i, speed + follow) <= follow && (drunk || hit)
    ensures road[lane][i].driver !in OnRoad(CruiseAsWritten(road, lane, i, speed, follow, drunk, hit))
  {
    var r: Road<D> := CruiseAsWritten(road, lane, i, speed, follow, drunk, hit);
    assert r == Put(road, lane, i, Empty);
    forall a, b | 0 <= a < |r| && 0 <= b < |r[a]| && r[a][b].Car?
      ensures r[a][b].driver != road[lane][i].driver
    {
      assert r[a][b] == road[a][b];
    }
  }

  /** The road after the cruise as evidently intended: one write, chosen by the
      gap scan, then the origin is cleared; the incident roll only logs. */
  function Cruised<D>(road: Road<D>, lane: int, i: nat, speed: nat, follow: nat): Road<D>
    requires 0 <= lane < |road| && i + speed < |road[lane]| && i + 1 < |road[lane]|
  {
    Put(Put(road, lane, CruiseTarget(road[lane], i, speed, follow), road[lane][i]), lane, i, Empty)
  }

  /** The intended cruise keeps every driver in exactly one cell and keeps the
      same drivers on the road. */
  lemma CruisedKeepsDrivers<D>(road: Road<D>, lane: int, i: nat, speed: nat, follow: nat)
    requires SingleOccupancy(road)
    requires 0 <= lane < |road| && 1 <= speed && i + speed < |road[lane]| && road[lane][i].Car?
    requires road[lane][i + 1].Empty?
    ensures var r := Cruised(road, lane, i, speed, follow);
      SingleOccupancy(r) && OnRoad(r) == OnRoad(road)
  {
    var t := CruiseTarget(road[lane], i, speed, follow);
    CruiseLandsOnEmpty(road[lane], i, speed, follow);
    MoveKeepsSingle(road, lane, i, lane, t);
    MoveKeepsDrivers(road, lane, i, lane, t);
  }

  class Simulation {
    const highway: Highway
    const timeSteps: int
    var currentStep: int
    var numCars: int
    var data: seq<ExitRecord>
    var crashes: seq<int>

    ghost predicate Valid()
      reads this, highway, OnRoad(highway.road)
    {
      && highway.Valid() && highway.length == HighwayLength
      && highway.numDefLanes == NumDefLanes && highway.numSdLanes == NumSdLanes
      && SingleOccupancy(highway.road)
      && AllOk(OnRoad(highway.road))
      && LaneEmpty(highway.road, SdLane)
    }

    constructor (timeSteps: int)
      ensures this.timeSteps == timeSteps && currentStep == 0 && numCars == 0 && data == [] && crashes == []
      ensures fresh(highway) && OnRoad(highway.road) == {} && Valid()
    {
      highway := new Highway(HighwayLength, NumDefLanes, NumSdLanes);
      this.timeSteps := timeSteps;
      currentStep := 0;
      numCars := 0;
      data := [];
      crashes := [];
    }

    /** The cruise exactly as the source writes it (see `CruiseAsWritten`):
        `hit` is whether the cruise's own draw falls below the driver's
        incident threshold. */
    method SimCruiseAsWritten(lane: int, i: nat, hit: bool)
      requires highway.Valid() && 0 <= lane < highway.numDefLanes + highway.numSdLanes && i < highway.length
      requires highway.road[lane][i].Car?
      requires i + 1 < highway.length && i + highway.road[lane][i].driver.speed < highway.length
      modifies this`crashes, highway`road, highway.road[lane][i].driver`desire
      ensures var d := old(highway.road[lane][i].driver);
        && highway.road == CruiseAsWritten(old(highway.road), lane, i, d.speed, d.safeFollow, d.isDrunk, hit)
        && d.desire == DesireAsWritten(old(highway.road[lane]), i, d.speed, d.safeFollow, d.isDrunk, hit, old(d.desire))
        && crashes == old(crashes) + Logged(hit, d.speed)
    {
      var d := highway.Get(lane, i).driver;
      var x := highway.SafeDistanceWithin(lane, i, d.speed + d.safeFollow);
      if x == d.speed + d.safeFollow {
        highway.Set(lane, i + d.speed, Car(d));
      } else if x > d.safeFollow {
        d.desire := LaneChange;
        highway.Set(lane, i + x - d.safeFollow, Car(d));
      }
      if d.isDrunk {
        if hit {
          crashes := crashes + [d.speed];
        }
      } else if hit {
        crashes := crashes + [d.speed];
      } else {
        d.desire := LaneChange;
        highway.Set(lane, i + 1, Car(d));
      }
      highway.Set(lane, i, Empty);
    }

    /** The cruise as evidently intended: the driver lands on the cell chosen by
        the gap scan, its desire becomes "Lane Change" unless the whole window
        was clear, the incident roll only logs the speed, and the origin is
        cleared. */
    method SimCruise(lane: int, i: nat, hit: bool)
      requires highway.Valid() && 0 <= lane < highway.numDefLanes + highway.numSdLanes && i < highway.length
      requires highway.road[lane][i].Car?
      requires i + 1 < highway.length && i + highway.road[lane][i].driver.speed < highway.length
      modifies this`crashes, highway`road, highway.road[lane][i].driver`desire
      ensures var d := old(highway.road[lane][i].driver);
        && highway.road == Cruised(old(highway.road), lane, i, d.speed, d.safeFollow)
        && d.desire == CruiseDesire(old(highway.road[lane]), i, d.speed, d.safeFollow, old(d.desire))
        && crashes == old(crashes) + Logged(hit, d.speed)
    {
      var d := highway.Get(lane, i).driver;
      var x := highway.SafeDistanceWithin(lane, i, d.speed + d.safeFollow);
      if x == d.speed + d.safeFollow {
        highway.Set(lane, i + d.speed, Car(d));
      } else if x > d.safeFollow {
        d.desire := LaneChange;
        highway.Set(lane, i + x - d.safeFollow, Car(d));
      } else {
        d.desire := LaneChange;
        highway.Set(lane, i + 1, Car(d));
      }
      if hit {
        crashes := crashes + [d.speed];
      }
      highway.Set(lane, i, Empty);
    }

    /** The direction choice of a driver that wants to change lanes (the
        first safe side, the preferred one first); only its desire changes. */
    method ChooseDirection(lane: int, i: nat, preferLeft: bool)
      requires highway.Valid() && 0 <= lane < highway.numDefLanes && i + LaneChangeSafeForward < highway.length
      requires highway.road[lane][i].Car?
      modifies highway.road[lane][i].driver`desire
      ensures var d := highway.road[lane][i].driver;
        d.desire == Resolve(old(d.desire), preferLeft, highway.LeftSafe(lane, i), highway.RightSafe(lane, i))
    {
      var d := highway.Get(lane, i).driver;
      if d.desire == LaneChange && preferLeft {
        var left := highway.SafeLeftLaneChange(lane, i);
        if left {
          d.desire := LaneChangeLeft;
        } else {
          var right := highway.SafeRightLaneChange(lane, i);
          if right {
            d.desire := LaneChangeRight;
          }
        }
      } else if d.desire == LaneChange && !preferLeft {
        var right := highway.SafeRightLaneChange(lane, i);
        if right {
          d.desire := LaneChangeRight;
        } else {
          var left := highway.SafeLeftLaneChange(lane, i);
          if left {
            d.desire := LaneChangeLeft;
          }
        }
      }
    }

    /** A lane change to (t, i), whose cell and the one ahead are free: the
        driver takes the cell beside it with desire "Cruise", its old cell is
        cleared, and it cruises in lane `t`.  The road ends as after one move
        from the old cell to the landing cell in lane `t`. */
    method ChangeLane(lane: int, t: int, i: nat, hit: bool)
      requires highway.Valid() && 0 <= lane < highway.numDefLanes + highway.numSdLanes
      requires 0 <= t < highway.numDefLanes + highway.numSdLanes && t != lane
      requires i + 1 < highway.length && highway.road[lane][i].Car?
      requires 1 <= highway.road[lane][i].driver.speed && i + highway.road[lane][i].driver.speed < highway.length
      requires highway.road[t][i].Empty? && highway.road[t][i + 1].Empty?
      modifies this`crashes, highway`road, highway.road[lane][i].driver`desire
      ensures var d := old(highway.road[lane][i].driver);
        && highway.road == Put(Put(old(highway.road), t, CruiseTarget(old(highway.road[t]), i, d.speed, d.safeFollow), Car(d)), lane, i, Empty)
        && d.desire == CruiseDesire(old(highway.road[t]), i, d.speed, d.safeFollow, Cruise)
        && crashes == old(crashes) + Logged(hit, d.speed)
    {
      ghost var road0 := highway.road;
      var d := highway.Get(lane, i).driver;
      ghost var q := CruiseTarget(road0[t], i, d.speed, d.safeFollow);
      highway.Set(t, i, Car(d));
      highway.Set(lane, i, Empty);
      d.desire := Cruise;
      ClearRunAhead(highway.road[t], road0[t], i, d.speed + d.safeFollow);
      SimCruise(t, i, hit);
      ChangeThenCruise(road0, lane, t, i, q, Car(d));
    }

    /** The update of the driver at (lane, i), a default lane.  It leaves the
        road exactly when `speed + i >= length - 1`, and then only its cell,
        its exit fields and the output change.  Otherwise a driver that does
        not cruise logs an incident when its draw is below its threshold; a
        "Lane Change" driver then takes the safe side the same draw prefers,
        else the other safe side, else stays; the driver ends in lane `t` at
        the cell `q` chosen by the gap scan of lane `t`, and the cruise's own
        roll `cruiseHit` may log one more incident. */
    method SimDriver(lane: int, i: nat, draw: Draw, cruiseHit: bool) returns (ghost exits: bool, ghost t: int, ghost q: int)
      requires highway.Valid() && highway.length == HighwayLength && highway.numDefLanes == NumDefLanes
      requires 0 <= lane < highway.numDefLanes && i < highway.length
      requires highway.road[lane][i].Car? && DriverOk(highway.road[lane][i].driver)
      modifies this`data, this`crashes, highway`road, highway.road[lane][i].driver
      ensures var d := old(highway.road[lane][i].driver);
        exits <==> d.speed + i >= highway.length - 1
      ensures var d := old(highway.road[lane][i].driver);
        exits ==>
          && highway.road == Put(old(highway.road), lane, i, Empty)
          && d.finalTime == currentStep && d.finalDist == HighwayLength
          && d.travelTime == currentStep - d.arriveTime
          && data == old(data) + [ExitOf(d, currentStep)]
          && crashes == old(crashes)
          && d.desire == old(d.desire)
      ensures var d := old(highway.road[lane][i].driver);
        !exits ==>
          && t == LaneAfter(lane, Resolve(old(d.desire), draw != RightSide, old(highway.LeftSafe(lane, i)), old(highway.RightSafe(lane, i))))
          && 0 <= t < highway.numDefLanes
          && q == CruiseTarget(old(highway.road[t]), i, d.speed, d.safeFollow)
          && highway.road == Put(Put(old(highway.road), t, q, Car(d)), lane, i, Empty)
          && d.desire == CruiseDesire(old(highway.road[t]), i, d.speed, d.safeFollow, if t == lane then old(d.desire) else Cruise)
          && (t != lane ==> old(highway.road[t][i]).Empty? && old(highway.road[t][i + 1]).Empty?)
          && data == old(data)
          && crashes == old(crashes) + Logged(old(d.desire) != Cruise && draw == BelowIncident, d.speed) + Logged(cruiseHit, d.speed)
          && d.finalTime == old(d.finalTime) && d.finalDist == old(d.finalDist) && d.travelTime == old(d.travelTime)
    {
      var d := highway.Get(lane, i).driver;
      if d.speed + i >= highway.length - 1 {
        highway.Set(lane, i, Empty);
        d.finalTime := currentStep;
        d.finalDist := HighwayLength;
        d.travelTime := d.finalTime - d.arriveTime;
        data := data + [d.OutputData()];
        return true, lane, i;
      }
      exits := false;
      ghost var road0 := highway.road;
      if d.desire != Cruise {
        if draw == BelowIncident {
          crashes := crashes + [d.speed];
        }
      }
      ChooseDirection(lane, i, draw != RightSide);
      t := LaneAfter(lane, d.desire);
      q := CruiseTarget(road0[t], i, d.speed, d.safeFollow);
      if d.desire == LaneChangeRight || d.desire == LaneChangeLeft {
        WindowCovers(road0[t], i, LaneChangeSafeBack, LaneChangeSafeForward, i);
        WindowCovers(road0[t], i, LaneChangeSafeBack, LaneChangeSafeForward, i + 1);
      }
      if d.desire == LaneChangeRight {
        ChangeLane(lane, lane + 1, i, cruiseHit);
      } else if d.desire == LaneChangeLeft {
        ChangeLane(lane, lane - 1, i, cruiseHit);
      } else if d.desire == Cruise || d.desire == LaneChange {
        SimCruise(lane, i, cruiseHit);
      }
    }

    /** The sweep of one tick, with the intended cruise: positions from the end
        of the road back to 0, lanes in ascending order at each position,
        every driver updated once.  Afterwards every driver that was on the
        road either stands in one cell strictly ahead of where it was, at most
        one lane away, or has left and has its record appended, in the order
        the drivers left; no driver is added, no cell holds a driver twice,
        the self-driving lane stays empty, and the incident log only grows,
        by speeds of drivers. */
    method ExecuteTimeStep(draws: (int, int) -> Draw, cruiseHits: (int, int) -> bool)
      returns (ghost start: map<Driver, Spot>, ghost now: map<Driver, Spot>, ghost exited: seq<Driver>)
      requires Valid()
      modifies this`data, this`crashes, highway`road, OnRoad(highway.road)
      ensures Valid()
      ensures Swept(old(highway.road), highway.road, start, now, exited)
      ensures data == old(data) + Records(exited, currentStep)
      ensures CrashLog(old(crashes), crashes)
      ensures OnRoad(highway.road) <= old(OnRoad(highway.road))
      ensures forall e :: e in old(OnRoad(highway.road)) ==> e in OnRoad(highway.road) || e in exited
      ensures forall e :: e in exited ==> e in old(OnRoad(highway.road)) && e !in OnRoad(highway.road)
    {
      ghost var init := highway.road;
      start, now, exited := map[], map[], [];
      Begin(init, NumDefLanes + NumSdLanes, highway.length);
      var i := highway.length - 1;
      while i >= 0
        invariant -1 <= i < highway.length
        invariant highway.length == HighwayLength && highway.numDefLanes == NumDefLanes && highway.numSdLanes == NumSdLanes
        invariant SweepInv(init, highway.road, NumDefLanes + NumSdLanes, highway.length, i, 0, start, now, exited)
        invariant LaneEmpty(highway.road, SdLane)
        invariant AllOk(OnRoad(init))
        invariant data == old(data) + Records(exited, currentStep)
        invariant CrashLog(old(crashes), crashes)
      {
        start, now, exited := VisitPosition(init, old(data), old(crashes), i, draws, cruiseHits, start, now, exited);
        i := i - 1;
      }
      Finish(init, highway.road, NumDefLanes + NumSdLanes, highway.length, start, now, exited);
      SweptAddsNoDriver(init, highway.road, start, now, exited);
      SweptAccountsForAll(init, highway.road, start, now, exited);
    }

    /** The visits at position `i`, lanes in ascending order. */
    method VisitPosition(ghost init: Road<Driver>, ghost base: seq<ExitRecord>, ghost log: seq<int>, i: int,
                         draws: (int, int) -> Draw, cruiseHits: (int, int) -> bool,
                         ghost start: map<Driver, Spot>, ghost now: map<Driver, Spot>, ghost exited: seq<Driver>)
      returns (ghost start': map<Driver, Spot>, ghost now': map<Driver, Spot>, ghost exited': seq<Driver>)
      requires highway.Valid() && highway.length == HighwayLength && 0 <= i
      requires highway.numDefLanes == NumDefLanes && highway.numSdLanes == NumSdLanes
      requires SweepInv(init, highway.road, NumDefLanes + NumSdLanes, highway.length, i, 0, start, now, exited)
      requires LaneEmpty(highway.road, SdLane) && AllOk(OnRoad(init))
      requires data == base + Records(exited, currentStep) && CrashLog(log, crashes)
      modifies this`data, this`crashes, highway`road, OnRoad(init)
      ensures highway.Valid()
      ensures SweepInv(init, highway.road, NumDefLanes + NumSdLanes, highway.length, i - 1, 0, start', now', exited')
      ensures LaneEmpty(highway.road, SdLane) && AllOk(OnRoad(init))
      ensures data == base + Records(exited', currentStep) && CrashLog(log, crashes)
    {
      start', now', exited' := start, now, exited;
      var k := 0;
      while k < highway.numDefLanes + highway.numSdLanes
        invariant 0 <= k <= highway.numDefLanes + highway.numSdLanes
        invariant highway.Valid()
        invariant SweepInv(init, highway.road, NumDefLanes + NumSdLanes, highway.length, i, k, start', now', exited')
        invariant LaneEmpty(highway.road, SdLane) && AllOk(OnRoad(init))
        invariant data == base + Records(exited', currentStep) && CrashLog(log, crashes)
      {
        start', now', exited' := VisitCell(init, base, log, k, i, draws(k, i), cruiseHits(k, i), start', now', exited');
        k := k + 1;
      }
      NextRow(init, highway.road, NumDefLanes + NumSdLanes, highway.length, i, start', now', exited');
    }

    /** The visit of cell (k, i): the update of the driver standing there, if
        any (the self-driving lane holds none). */
    method VisitCell(ghost init: Road<Driver>, ghost base: seq<ExitRecord>, ghost log: seq<int>, k: int, i: int,
                     draw: Draw, cruiseHit: bool,
                     ghost start: map<Driver, Spot>, ghost now: map<Driver, Spot>, ghost exited: seq<Driver>)
      returns (ghost start': map<Driver, Spot>, ghost now': map<Driver, Spot>, ghost exited': seq<Driver>)
      requires highway.Valid() && highway.length == HighwayLength && 0 <= i
      requires highway.numDefLanes == NumDefLanes && highway.numSdLanes == NumSdLanes
      requires 0 <= k < NumDefLanes + NumSdLanes
      requires SweepInv(init, highway.road, NumDefLanes + NumSdLanes, highway.length, i, k, start, now, exited)
      requires LaneEmpty(highway.road, SdLane) && AllOk(OnRoad(init))
      requires data == base + Records(exited, currentStep) && CrashLog(log, crashes)
      modifies this`data, this`crashes, highway`road, OnRoad(init)
      ensures highway.Valid()
      ensures SweepInv(init, highway.road, NumDefLanes + NumSdLanes, highway.length, i, k + 1, start', now', exited')
      ensures LaneEmpty(highway.road, SdLane) && AllOk(OnRoad(init))
      ensures data == base + Records(exited', currentStep) && CrashLog(log, crashes)
    {
      if highway.Get(k, i).Car? {
        Unvisited(init, highway.road, NumDefLanes + NumSdLanes, highway.length, i, k, start, now, exited);
        OnRoadHas(init, k, i);
        start', now', exited' := VisitDriver(init, base, log, k, i, draw, cruiseHit, OnRoad(init), start, now, exited);
      } else {
        Skip(init, highway.road, NumDefLanes + NumSdLanes, highway.length, i, k, start, now, exited);
        start', now', exited' := start, now, exited;
      }
    }

    /** One step of the sweep: the update of the driver at (k, i), carrying the
        sweep invariant across it. */
    method VisitDriver(ghost init: Road<Driver>, ghost base: seq<ExitRecord>, ghost log: seq<int>, k: int, i: int,
                       draw: Draw, cruiseHit: bool, ghost ds: set<Driver>,
                       ghost start: map<Driver, Spot>, ghost now: map<Driver, Spot>, ghost exited: seq<Driver>)
      returns (ghost start': map<Driver, Spot>, ghost now': map<Driver, Spot>, ghost exited': seq<Driver>)
      requires highway.Valid() && highway.length == HighwayLength && 0 <= i
      requires highway.numDefLanes == NumDefLanes && highway.numSdLanes == NumSdLanes
      requires 0 <= k < NumDefLanes
      requires SweepInv(init, highway.road, NumDefLanes + NumSdLanes, highway.length, i, k, start, now, exited)
      requires highway.road[k][i].Car? && highway.road[k][i].driver in ds
      requires LaneEmpty(highway.road, SdLane) && AllOk(ds)
      requires data == base + Records(exited, currentStep) && CrashLog(log, crashes)
      modifies this`data, this`crashes, highway`road, highway.road[k][i].driver
      ensures highway.Valid()
      ensures SweepInv(init, highway.road, NumDefLanes + NumSdLanes, highway.length, i, k + 1, start', now', exited')
      ensures LaneEmpty(highway.road, SdLane) && AllOk(ds)
      ensures data == base + Records(exited', currentStep) && CrashLog(log, crashes)
    {
      ghost var cur: Road<Driver> := highway.road;
      ghost var d: Driver := cur[k][i].driver;
      ghost var exits: bool, t: int, q: int, a: bool, b: bool;
      exits, t, q, a, b := UpdateDriver(ds, k, i, draw, cruiseHit);
      VisitStep(init, cur, highway.road, i, k, start, now, exited, base, old(data), data, currentStep, exits, t, q);
      CrashLogGrows(log, old(crashes), crashes, d.speed, a, b);
      start' := start[d := Spot(k, i)];
      now' := if exits then now else now[d := Spot(t, q)];
      exited' := if exits then exited + [d] else exited;
    }

    /** The update of the driver at (k, i) in the terms the sweep needs: it
        leaves, or it moves to (t, q) in its own lane or, through a free cell
        beside it, in a neighbouring default lane; up to two incidents are
        logged; every driver of `ds` keeps a desire the engine expects. */
    method UpdateDriver(ghost ds: set<Driver>, k: int, i: nat, draw: Draw, cruiseHit: bool)
      returns (ghost exits: bool, ghost t: int, ghost q: int, ghost a: bool, ghost b: bool)
      requires highway.Valid() && highway.length == HighwayLength && highway.numDefLanes == NumDefLanes
      requires 0 <= k < NumDefLanes && i < highway.length
      requires highway.road[k][i].Car? && highway.road[k][i].driver in ds && AllOk(ds)
      modifies this`data, this`crashes, highway`road, highway.road[k][i].driver
      ensures AllOk(ds)
      ensures var d := old(highway.road[k][i].driver);
        && (exits ==> highway.road == Put(old(highway.road), k, i, Empty) && data == old(data) + [ExitOf(d, currentStep)])
        && (!exits ==>
              && d.speed + i < HighwayLength - 1
              && 0 <= t < NumDefLanes && k - 1 <= t <= k + 1
              && q == CruiseTarget(old(highway.road[t]), i, d.speed, d.safeFollow)
              && highway.road == Put(Put(old(highway.road), t, q, Car(d)), k, i, Empty)
              && (t != k ==> old(highway.road[t][i]).Empty? && old(highway.road[t][i + 1]).Empty?)
              && data == old(data))
        && crashes == old(crashes) + Logged(a, d.speed) + Logged(b, d.speed)
    {
      ghost var d: Driver := highway.road[k][i].driver;
      a := d.desire != Cruise && draw == BelowIncident;
      b := cruiseHit;
      exits, t, q := SimDriver(k, i, draw, cruiseHit);
      if exits {
        a, b := false, false;
      }
      assert d.desire == Cruise || d.desire == LaneChange;
      assert forall e :: e in ds && e != d ==> e.desire == old(e.desire);
    }
  }

  /** Appending up to two speeds of a driver keeps the log a log. */
  lemma CrashLogGrows(log: seq<int>, before: seq<int>, after: seq<int>, speed: int, a: bool, b: bool)
    requires CrashLog(log, before) && (speed == Fast || speed == Slow)
    requires after == before + Logged(a, speed) + Logged(b, speed)
    ensures CrashLog(log, after)
  {
    assert after[..|before|] == before;
  }

  /** The sweep invariant, the emptiness of the self-driving lane and the
      output carried across the update of the driver at (k, i), given what
      that update did to the road and the output. */
  lemma VisitStep(init: Road<Driver>, cur: Road<Driver>, after: Road<Driver>, i: int, k: int,
                  start: map<Driver, Spot>, now: map<Driver, Spot>, exited: seq<Driver>,
                  base: seq<ExitRecord>, before: seq<ExitRecord>, data: seq<ExitRecord>, step: int,
                  exits: bool, t: int, q: int)
    requires SweepInv(init, cur, NumDefLanes + NumSdLanes, HighwayLength, i, k, start, now, exited)
    requires 0 <= i && 0 <= k < NumDefLanes && cur[k][i].Car? && LaneEmpty(cur, SdLane)
    requires cur[k][i].driver.speed == Fast || cur[k][i].driver.speed == Slow
    requires before == base + Records(exited, step)
    requires var d := cur[k][i].driver;
      && (exits ==> after == Put(cur, k, i, Empty) && data == before + [ExitOf(d, step)])
      && (!exits ==>
            && d.speed + i < HighwayLength - 1
            && 0 <= t < NumDefLanes && k - 1 <= t <= k + 1
            && q == CruiseTarget(cur[t], i, d.speed, d.safeFollow)
            && after == Put(Put(cur, t, q, Car(d)), k, i, Empty)
            && (t != k ==> cur[t][i].Empty? && cur[t][i + 1].Empty?)
            && data == before)
    ensures var d := cur[k][i].driver;
      && SweepInv(init, after, NumDefLanes + NumSdLanes, HighwayLength, i, k + 1, start[d := Spot(k, i)],
                  if exits then now else now[d := Spot(t, q)], if exits then exited + [d] else exited)
      && LaneEmpty(after, SdLane)
      && data == base + Records(if exits then exited + [d] else exited, step)
  {
    var d := cur[k][i].driver;
    if exits {
      ExitStep(init, cur, NumDefLanes + NumSdLanes, HighwayLength, i, k, start, now, exited);
      assert Records(exited + [d], step) == Records(exited, step) + [ExitOf(d, step)];
    } else {
      CruiseLandsOnEmpty(cur[t], i, d.speed, d.safeFollow);
      MoveStep(init, cur, NumDefLanes + NumSdLanes, HighwayLength, i, k, start, now, exited, t, q);
    }
    assert after[SdLane] == cur[SdLane];
  }
}
