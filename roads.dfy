/** Vocabulary shared by the three versions of the highway engine: the cells of
    the road, the forward gap scan, the lane-change safety window and where a
    cruising driver lands.  The road is a list of lanes, each
    a list of cells, as in the source (`road[lane][pos]`). */
module Roads {

  /** One cell: empty, or holding a reference to a driver. */
  datatype Cell<D> = Empty | Car(driver: D)

  /** The road, lane-major: `road[lane][pos]`. */
  type Road<D> = seq<seq<Cell<D>>>

  /** A (lane, position) pair. */
  datatype Spot = Spot(lane: int, pos: int)

  /** `road` has `lanes` lanes of `length` cells each. */
  ghost predicate Shaped<D>(road: Road<D>, lanes: int, length: int) {
    |road| == lanes && forall l :: 0 <= l < |road| ==> |road[l]| == length
  }

  /** The road after one cell is assigned. */
  function Put<D>(road: Road<D>, lane: int, pos: int, c: Cell<D>): Road<D>
    requires 0 <= lane < |road| && 0 <= pos < |road[lane]|
  {
    road[lane := road[lane][pos := c]]
  }

  /** No driver stands in two cells. */
  ghost predicate SingleOccupancy<D>(road: Road<D>) {
    forall l1, p1, l2, p2 ::
      0 <= l1 < |road| && 0 <= p1 < |road[l1]| && 0 <= l2 < |road| && 0 <= p2 < |road[l2]| &&
      road[l1][p1].Car? && road[l1][p1] == road[l2][p2]
      ==> l1 == l2 && p1 == p2
  }

  /** The drivers standing somewhere on the road. */
  ghost function OnRoad<D>(road: Road<D>): set<D> {
    set l, p | 0 <= l < |road| && 0 <= p < |road[l]| && road[l][p].Car? :: road[l][p].driver
  }

  lemma OnRoadHas<D>(road: Road<D>, l: int, p: int)
    requires 0 <= l < |road| && 0 <= p < |road[l]| && road[l][p].Car?
    ensures road[l][p].driver in OnRoad(road)
  {
  }

  // ---------------------------------------------------------------------------
  // The forward gap scan

  /** Reference definition of the gap scan: the number of empty cells after
      `index`, counting at most `k`; a scan that runs off the end of the lane
      counts the missing cells as clear. */
  function ClearRun<D>(lane: seq<Cell<D>>, index: int, k: nat): (x: nat)
    requires 0 <= index
    ensures x <= k
    decreases k
  {
    if k == 0 then 0
    else if index + 1 >= |lane| then k
    else if lane[index + 1].Car? then 0
    else 1 + ClearRun(lane, index + 1, k - 1)
  }

  /** What the gap means: `x` cells ahead are free (as far as the lane goes); the
      scan returns less than `k` exactly when a car stands right after those
      `x` cells; and it returns `k` exactly when the window holds no car. */
  lemma {:induction false} ClearRunMeaning<D>(lane: seq<Cell<D>>, index: int, k: nat)
    requires 0 <= index
    ensures var x := ClearRun(lane, index, k);
      && (forall j :: index < j <= index + x && j < |lane| ==> lane[j].Empty?)
      && (x < k ==> index + x + 1 < |lane| && lane[index + x + 1].Car?)
      && (x == k <==> forall j :: index < j <= index + k && j < |lane| ==> lane[j].Empty?)
    decreases k
  {
    if k != 0 && index + 1 < |lane| && lane[index + 1].Empty? {
      ClearRunMeaning(lane, index + 1, k - 1);
    }
  }

  /** The scan reads only the cells after `index`. */
  lemma {:induction false} ClearRunAhead<D>(a: seq<Cell<D>>, b: seq<Cell<D>>, index: int, k: nat)
    requires 0 <= index && |a| == |b|
    requires forall j :: index < j < |a| ==> a[j] == b[j]
    ensures ClearRun(a, index, k) == ClearRun(b, index, k)
    decreases k
  {
    if k != 0 && index + 1 < |a| && a[index + 1].Empty? {
      ClearRunAhead(a, b, index + 1, k - 1);
    }
  }

  /** The loop of `safe_distance_within`: scan positions index+1 .. index+k of one
      lane, stop with `k` off the end of the road, stop with the count at the
      first car. */
  method SafeDistanceWithin<D>(lane: seq<Cell<D>>, index: nat, k: nat) returns (x: nat)
    ensures x == ClearRun(lane, index, k)
  {
    x := 0;
    for j := index + 1 to index + k + 1
      invariant x == j - index - 1
      invariant ClearRun(lane, index, k) == x + ClearRun(lane, j - 1, k - x)
    {
      if j >= |lane| {
        return k;
      }
      if lane[j].Car? {
        return x;
      }
      x := x + 1;
    }
  }

  // ---------------------------------------------------------------------------
  // The lane-change safety window

  /** A list index as the source's language reads it: a negative index counts
      from the end of the list. */
  function PyIndex(n: int, j: int): int {
    if j < 0 then n + j else j
  }

  /** Cells i-back .. i+forward of `lane`, read with negative indices wrapping to
      the far end of the lane, are all empty. */
  ghost predicate WindowClear<D>(lane: seq<Cell<D>>, i: int, back: nat, forward: nat)
    requires 0 <= i && -|lane| <= i - back && i + forward < |lane|
  {
    forall j :: i - back <= j <= i + forward ==> lane[PyIndex(|lane|, j)].Empty?
  }

  /** The window in plain positions: the cells from max(0, i-back) to i+forward,
      and, when i < back, the last back-i cells of the lane. */
  lemma WindowClearMeaning<D>(lane: seq<Cell<D>>, i: int, back: nat, forward: nat)
    requires 0 <= i && -|lane| <= i - back && i + forward < |lane|
    ensures WindowClear(lane, i, back, forward) <==>
      && (forall j :: 0 <= j && i - back <= j <= i + forward ==> lane[j].Empty?)
      && (forall j :: |lane| + i - back <= j < |lane| ==> lane[j].Empty?)
  {
    var n := |lane|;
    if WindowClear(lane, i, back, forward) {
      forall j | 0 <= j && i - back <= j <= i + forward ensures lane[j].Empty? {
        assert PyIndex(n, j) == j;
      }
      forall j | n + i - back <= j < n ensures lane[j].Empty? {
        assert PyIndex(n, j - n) == j;
      }
    } else {
      var j :| i - back <= j <= i + forward && lane[PyIndex(n, j)].Car?;
      if j < 0 {
        assert n + i - back <= PyIndex(n, j) < n;
      }
    }
  }

  /** A clear window covers the cell beside the driver and the cells ahead of it. */
  lemma WindowCovers<D>(lane: seq<Cell<D>>, i: int, back: nat, forward: nat, j: int)
    requires 0 <= i && -|lane| <= i - back && i + forward < |lane|
    requires WindowClear(lane, i, back, forward) && i <= j <= i + forward
    ensures lane[j].Empty?
  {
    assert PyIndex(|lane|, j) == j;
  }

  /** The two loops of the lane-change checks (the cell beside the driver, the
      look-behind window, then the look-ahead window) over the target lane. */
  method ScanWindow<D>(lane: seq<Cell<D>>, i: nat, back: nat, forward: nat) returns (safe: bool)
    requires -|lane| <= i - back && i + forward < |lane|
    ensures safe == WindowClear(lane, i, back, forward)
  {
    safe := true;
    if lane[i].Car? {
      safe := false;
    }
    assert PyIndex(|lane|, i) == i;
    for j := i downto i - back
      invariant safe <==> forall m :: j <= m <= i ==> lane[PyIndex(|lane|, m)].Empty?
    {
      if lane[PyIndex(|lane|, j)].Car? {
        safe := false;
      }
    }
    for j := i + 1 to i + forward + 1
      invariant safe <==> forall m :: i - back <= m < j ==> lane[PyIndex(|lane|, m)].Empty?
    {
      assert PyIndex(|lane|, j) == j;
      if lane[j].Car? {
        safe := false;
      }
    }
  }

  // ---------------------------------------------------------------------------
  // Cruising

  /** Where `sim_cruise` puts a driver of the given speed and follow distance
      that stands at `i`: full speed when the whole window of speed+follow cells
      is clear, up to `follow` cells behind the next car when there is room
      beyond the margin, one cell otherwise. */
  function CruiseTarget<D>(lane: seq<Cell<D>>, i: nat, speed: nat, follow: nat): (t: int)
    ensures speed >= 1 ==> i < t <= i + speed
    ensures ClearRun(lane, i, speed + follow) == speed + follow ==> t == i + speed
  {
    var x := ClearRun(lane, i, speed + follow);
    if x == speed + follow then i + speed
    else if x > follow then i + x - follow
    else i + 1
  }

  /** A driver whose cell right ahead is free never lands on an occupied cell. */
  lemma CruiseLandsOnEmpty<D>(lane: seq<Cell<D>>, i: nat, speed: nat, follow: nat)
    requires 1 <= speed && i + speed < |lane|
    requires lane[i + 1].Empty?
    ensures lane[CruiseTarget(lane, i, speed, follow)].Empty?
  {
    ClearRunMeaning(lane, i, speed + follow);
  }

  /** In the partial branch the driver ends exactly `follow` free cells behind
      the next car. */
  lemma CruiseKeepsFollow<D>(lane: seq<Cell<D>>, i: nat, speed: nat, follow: nat)
    requires follow < ClearRun(lane, i, speed + follow) < speed + follow
    ensures var t := CruiseTarget(lane, i, speed, follow);
      && t + follow + 1 < |lane| && lane[t + follow + 1].Car?
      && forall j :: t < j <= t + follow ==> lane[j].Empty?
  {
    ClearRunMeaning(lane, i, speed + follow);
  }

  /** A lane change followed by a cruise in the new lane writes the same road as
      one move from the old cell to the landing cell, because the cell beside the
      driver was free. */
  lemma ChangeThenCruise<D>(road: Road<D>, lane: int, t: int, i: int, q: int, c: Cell<D>)
    requires 0 <= lane < |road| && 0 <= t < |road| && t != lane
    requires 0 <= i < q < |road[t]| && i < |road[lane]| && road[t][i].Empty?
    ensures Put(Put(Put(Put(road, t, i, c), lane, i, Empty), t, q, c), t, i, Empty)
         == Put(Put(road, t, q, c), lane, i, Empty)
  {
    var a := Put(Put(Put(Put(road, t, i, c), lane, i, Empty), t, q, c), t, i, Empty);
    var b := Put(Put(road, t, q, c), lane, i, Empty);
    assert a[t] == b[t];
    assert a[lane] == b[lane];
  }

  /** Moving the driver of one cell to an empty cell and clearing the old one
      keeps every driver in exactly one cell... */
  lemma MoveKeepsSingle<D>(road: Road<D>, l: int, p: int, t: int, q: int)
    requires SingleOccupancy(road)
    requires 0 <= l < |road| && 0 <= p < |road[l]| && road[l][p].Car?
    requires 0 <= t < |road| && 0 <= q < |road[t]| && road[t][q].Empty?
    ensures SingleOccupancy(Put(Put(road, t, q, road[l][p]), l, p, Empty))
  {
    var r: Road<D> := Put(Put(road, t, q, road[l][p]), l, p, Empty);
    forall l1, p1, l2, p2 |
      0 <= l1 < |r| && 0 <= p1 < |r[l1]| && 0 <= l2 < |r| && 0 <= p2 < |r[l2]| &&
      r[l1][p1].Car? && r[l1][p1] == r[l2][p2]
      ensures l1 == l2 && p1 == p2
    {
      var o1 := if l1 == t && p1 == q then Spot(l, p) else Spot(l1, p1);
      var o2 := if l2 == t && p2 == q then Spot(l, p) else Spot(l2, p2);
      assert r[l1][p1] == road[o1.lane][o1.pos] && r[l2][p2] == road[o2.lane][o2.pos];
    }
  }

  /** ... and keeps the same drivers on the road. */
  lemma MoveKeepsDrivers<D>(road: Road<D>, l: int, p: int, t: int, q: int)
    requires 0 <= l < |road| && 0 <= p < |road[l]| && road[l][p].Car?
    requires 0 <= t < |road| && 0 <= q < |road[t]| && road[t][q].Empty?
    ensures OnRoad(Put(Put(road, t, q, road[l][p]), l, p, Empty)) == OnRoad(road)
  {
    var r: Road<D> := Put(Put(road, t, q, road[l][p]), l, p, Empty);
    forall e | e in OnRoad(road) ensures e in OnRoad(r) {
      var a, b :| 0 <= a < |road| && 0 <= b < |road[a]| && road[a][b].Car? && road[a][b].driver == e;
      if a == l && b == p {
        assert r[t][q] == road[l][p];
      } else {
        assert r[a][b] == road[a][b];
      }
    }
    forall e | e in OnRoad(r) ensures e in OnRoad(road) {
      var a, b :| 0 <= a < |r| && 0 <= b < |r[a]| && r[a][b].Car? && r[a][b].driver == e;
      if a == t && b == q {
        assert road[l][p] == r[a][b];
      } else {
        assert r[a][b] == road[a][b];
      }
    }
  }
}
