/** The back-to-front sweep of one tick, stated on road values.  The sweep visits
    positions from the end of the road back to 0 and, at each position, lanes in
    ascending order; every visited driver either leaves the road or moves to a
    strictly larger position.  `SweepInv` is what holds between two per-driver
    updates; the lemmas carry it across an exit, a move, and from one position
    to the one behind it.  Both the two-lane and the N-lane engines use them. */
module Sweep {
  import opened Roads

  /** Whether the sweep, at position `i` and about to visit lane `k`, has
      already visited cell (l, p). */
  predicate Visited(l: int, p: int, i: int, k: int) {
    p > i || (p == i && l < k)
  }

  ghost predicate InRoad<D>(road: Road<D>, s: Spot) {
    0 <= s.lane < |road| && 0 <= s.pos < |road[s.lane]|
  }

  function At<D>(road: Road<D>, s: Spot): Cell<D>
    requires InRoad(road, s)
  {
    road[s.lane][s.pos]
  }

  /** Cells the sweep has not reached are as they were when the tick began. */
  ghost predicate Untouched<D>(init: Road<D>, cur: Road<D>, i: int, k: int)
    requires |init| == |cur| && forall l :: 0 <= l < |cur| ==> |init[l]| == |cur[l]|
  {
    forall l, p :: 0 <= l < |cur| && 0 <= p < |cur[l]| && !Visited(l, p, i, k) ==> cur[l][p] == init[l][p]
  }

  /** At the current position, visited cells are empty and every car still to be
      visited has a free cell right ahead of it. */
  ghost predicate Frontier<D>(cur: Road<D>, lanes: int, length: int, i: int, k: int)
    requires Shaped(cur, lanes, length) && i < length && 0 <= k <= lanes
  {
    0 <= i ==>
      && (forall l :: 0 <= l < k ==> cur[l][i].Empty?)
      && (forall l :: k <= l < lanes && i + 1 < length && cur[l][i].Car? ==> cur[l][i + 1].Empty?)
  }

  /** `start` holds, for each visited driver, the cell it began the tick in. */
  ghost predicate Starts<D>(init: Road<D>, i: int, k: int, start: map<D, Spot>) {
    && (forall l, p :: 0 <= l < |init| && 0 <= p < |init[l]| && Visited(l, p, i, k) && init[l][p].Car? ==>
          init[l][p].driver in start && start[init[l][p].driver] == Spot(l, p))
    && (forall d :: d in start ==>
          InRoad(init, start[d]) && Visited(start[d].lane, start[d].pos, i, k) && At(init, start[d]) == Car(d))
  }

  /** `now` holds, for each visited driver still on the road, the cell it stands
      in: strictly ahead of where it started and at most one lane away.  A
      visited cell holding a driver is that driver's only cell. */
  ghost predicate Moved<D>(cur: Road<D>, i: int, k: int, start: map<D, Spot>, now: map<D, Spot>) {
    && (forall d :: d in now ==>
          && d in start && InRoad(cur, now[d]) && At(cur, now[d]) == Car(d)
          && start[d].pos < now[d].pos && start[d].lane - 1 <= now[d].lane <= start[d].lane + 1)
    && (forall l, p :: 0 <= l < |cur| && 0 <= p < |cur[l]| && Visited(l, p, i, k) && cur[l][p].Car? ==>
          cur[l][p].driver in now && now[cur[l][p].driver] == Spot(l, p))
  }

  /** `exited` lists, once each, the visited drivers that left the road. */
  ghost predicate Exits<D>(start: map<D, Spot>, now: map<D, Spot>, exited: seq<D>) {
    && (forall j :: 0 <= j < |exited| ==> exited[j] in start && exited[j] !in now)
    && (forall j1, j2 :: 0 <= j1 < j2 < |exited| ==> exited[j1] != exited[j2])
    && (forall d :: d in start ==> d in now || d in exited)
  }

  ghost predicate SweepInv<D>(init: Road<D>, cur: Road<D>, lanes: int, length: int, i: int, k: int,
                              start: map<D, Spot>, now: map<D, Spot>, exited: seq<D>) {
    && Shaped(init, lanes, length) && Shaped(cur, lanes, length)
    && -1 <= i < length && 0 <= k <= lanes
    && SingleOccupancy(init)
    && Untouched(init, cur, i, k)
    && Frontier(cur, lanes, length, i, k)
    && Starts(init, i, k, start)
    && Moved(cur, i, k, start, now)
    && Exits(start, now, exited)
  }

  /** Before the first visit nothing has happened. */
  lemma Begin<D>(init: Road<D>, lanes: int, length: int)
    requires Shaped(init, lanes, length) && 0 <= lanes && 0 <= length && SingleOccupancy(init)
    ensures SweepInv(init, init, lanes, length, length - 1, 0, map[], map[], [])
  {
  }

  /** A driver in a cell the sweep has not reached has no recorded start. */
  lemma NotStarted<D>(init: Road<D>, i: int, k: int, start: map<D, Spot>, l: int, p: int)
    requires SingleOccupancy(init) && Starts(init, i, k, start)
    requires 0 <= l < |init| && 0 <= p < |init[l]| && !Visited(l, p, i, k) && init[l][p].Car?
    ensures init[l][p].driver !in start
  {
    forall e | e in start ensures e != init[l][p].driver {
      var s := start[e];
      assert At(init, s) == Car(e) && Visited(s.lane, s.pos, i, k);
    }
  }

  /** The driver about to be visited has not been visited before. */
  lemma Unvisited<D>(init: Road<D>, cur: Road<D>, lanes: int, length: int, i: int, k: int,
                     start: map<D, Spot>, now: map<D, Spot>, exited: seq<D>)
    requires SweepInv(init, cur, lanes, length, i, k, start, now, exited)
    requires 0 <= i && k < lanes && cur[k][i].Car?
    ensures init[k][i] == cur[k][i]
    ensures cur[k][i].driver !in start && cur[k][i].driver !in now && cur[k][i].driver !in exited
  {
    assert init[k][i] == cur[k][i];
    NotStarted(init, i, k, start, k, i);
  }

  /** Visiting an empty cell changes nothing. */
  lemma Skip<D>(init: Road<D>, cur: Road<D>, lanes: int, length: int, i: int, k: int,
                start: map<D, Spot>, now: map<D, Spot>, exited: seq<D>)
    requires SweepInv(init, cur, lanes, length, i, k, start, now, exited)
    requires 0 <= i && k < lanes && cur[k][i].Empty?
    ensures SweepInv(init, cur, lanes, length, i, k + 1, start, now, exited)
  {
    SkipUntouched(init, cur, i, k);
    SkipStarts(init, cur, i, k, start);
    SkipMoved(cur, i, k, start, now);
  }

  lemma SkipUntouched<D>(init: Road<D>, cur: Road<D>, i: int, k: int)
    requires |init| == |cur| && forall l :: 0 <= l < |cur| ==> |init[l]| == |cur[l]|
    requires Untouched(init, cur, i, k)
    ensures Untouched(init, cur, i, k + 1)
  {
    forall l, p | 0 <= l < |cur| && 0 <= p < |cur[l]| && !Visited(l, p, i, k + 1)
      ensures cur[l][p] == init[l][p]
    {
      assert !Visited(l, p, i, k);
    }
  }

  lemma SkipStarts<D>(init: Road<D>, cur: Road<D>, i: int, k: int, start: map<D, Spot>)
    requires Starts(init, i, k, start) && 0 <= k < |init| && 0 <= i < |init[k]|
    requires |init| == |cur| && (forall l :: 0 <= l < |cur| ==> |init[l]| == |cur[l]|)
    requires Untouched(init, cur, i, k) && cur[k][i].Empty?
    ensures Starts(init, i, k + 1, start)
  {
    assert !Visited(k, i, i, k) && init[k][i].Empty?;
    forall l, p | 0 <= l < |init| && 0 <= p < |init[l]| && Visited(l, p, i, k + 1) && init[l][p].Car?
      ensures init[l][p].driver in start && start[init[l][p].driver] == Spot(l, p)
    {
      assert Visited(l, p, i, k);
    }
  }

  lemma SkipMoved<D>(cur: Road<D>, i: int, k: int, start: map<D, Spot>, now: map<D, Spot>)
    requires Moved(cur, i, k, start, now) && 0 <= k < |cur| && 0 <= i < |cur[k]| && cur[k][i].Empty?
    ensures Moved(cur, i, k + 1, start, now)
  {
    forall l, p | 0 <= l < |cur| && 0 <= p < |cur[l]| && Visited(l, p, i, k + 1) && cur[l][p].Car?
      ensures cur[l][p].driver in now && now[cur[l][p].driver] == Spot(l, p)
    {
      assert Visited(l, p, i, k);
    }
  }

  /** Visiting a driver that leaves the road. */
  lemma ExitStep<D>(init: Road<D>, cur: Road<D>, lanes: int, length: int, i: int, k: int,
                    start: map<D, Spot>, now: map<D, Spot>, exited: seq<D>)
    requires SweepInv(init, cur, lanes, length, i, k, start, now, exited)
    requires 0 <= i && k < lanes && cur[k][i].Car?
    ensures var d := cur[k][i].driver;
      SweepInv(init, Put(cur, k, i, Empty), lanes, length, i, k + 1,
               start[d := Spot(k, i)], now, exited + [d])
  {
    var d := cur[k][i].driver;
    Unvisited(init, cur, lanes, length, i, k, start, now, exited);
    var cur', start', exited' := Put(cur, k, i, Empty), start[d := Spot(k, i)], exited + [d];
    ExitUntouched(init, cur, i, k);
    ExitFrontier(cur, lanes, length, i, k);
    StartsStep(init, i, k, start);
    ExitMoved(cur, i, k, start, now);
    ExitExits(start, now, exited, d, Spot(k, i));
  }

  lemma ExitExits<D>(start: map<D, Spot>, now: map<D, Spot>, exited: seq<D>, d: D, s: Spot)
    requires Exits(start, now, exited) && d !in start && d !in now
    ensures Exits(start[d := s], now, exited + [d])
  {
    var exited' := exited + [d];
    forall j | 0 <= j < |exited'| ensures exited'[j] in start[d := s] && exited'[j] !in now {
      if j < |exited| {
        assert exited'[j] == exited[j];
      }
    }
    forall j1, j2 | 0 <= j1 < j2 < |exited'| ensures exited'[j1] != exited'[j2] {
      assert exited'[j1] == exited[j1];
      if j2 < |exited| {
        assert exited'[j2] == exited[j2];
      }
    }
    forall e | e in start[d := s] ensures e in now || e in exited' {
      if e != d {
        assert e in now || e in exited;
      }
    }
  }

  lemma ExitUntouched<D>(init: Road<D>, cur: Road<D>, i: int, k: int)
    requires |init| == |cur| && forall l :: 0 <= l < |cur| ==> |init[l]| == |cur[l]|
    requires Untouched(init, cur, i, k) && 0 <= k < |cur| && 0 <= i < |cur[k]|
    ensures Untouched(init, Put(cur, k, i, Empty), i, k + 1)
  {
  }

  lemma ExitFrontier<D>(cur: Road<D>, lanes: int, length: int, i: int, k: int)
    requires Shaped(cur, lanes, length) && 0 <= i < length && 0 <= k < lanes
    requires Frontier(cur, lanes, length, i, k)
    ensures Frontier(Put(cur, k, i, Empty), lanes, length, i, k + 1)
  {
  }

  lemma StartsStep<D>(init: Road<D>, i: int, k: int, start: map<D, Spot>)
    requires SingleOccupancy(init) && Starts(init, i, k, start)
    requires 0 <= k < |init| && 0 <= i < |init[k]| && init[k][i].Car?
    ensures Starts(init, i, k + 1, start[init[k][i].driver := Spot(k, i)])
  {
    var d := init[k][i].driver;
    var start' := start[d := Spot(k, i)];
    forall l, p | 0 <= l < |init| && 0 <= p < |init[l]| && Visited(l, p, i, k + 1) && init[l][p].Car?
      ensures init[l][p].driver in start' && start'[init[l][p].driver] == Spot(l, p)
    {
      if l != k || p != i {
        assert Visited(l, p, i, k);
        assert init[l][p].driver != d;
      }
    }
  }

  lemma ExitMoved<D>(cur: Road<D>, i: int, k: int, start: map<D, Spot>, now: map<D, Spot>)
    requires Moved(cur, i, k, start, now) && 0 <= k < |cur| && 0 <= i < |cur[k]| && cur[k][i].Car?
    requires cur[k][i].driver !in now
    ensures Moved(Put(cur, k, i, Empty), i, k + 1, start[cur[k][i].driver := Spot(k, i)], now)
  {
    var cur': Road<D> := Put(cur, k, i, Empty);
    forall e | e in now
      ensures InRoad(cur', now[e]) && At(cur', now[e]) == Car(e)
    {
      assert now[e] != Spot(k, i);
    }
    forall l, p | 0 <= l < |cur'| && 0 <= p < |cur'[l]| && Visited(l, p, i, k + 1) && cur'[l][p].Car?
      ensures cur'[l][p].driver in now && now[cur'[l][p].driver] == Spot(l, p)
    {
      assert Visited(l, p, i, k);
    }
  }

  /** Visiting a driver that moves from (k, i) to (t, q): a free cell strictly
      ahead, in its own lane or one beside it; a move to the lane on the right
      passes through a free cell at position i. */
  lemma MoveStep<D>(init: Road<D>, cur: Road<D>, lanes: int, length: int, i: int, k: int,
                    start: map<D, Spot>, now: map<D, Spot>, exited: seq<D>, t: int, q: int)
    requires SweepInv(init, cur, lanes, length, i, k, start, now, exited)
    requires 0 <= i && k < lanes && cur[k][i].Car?
    requires 0 <= t < lanes && k - 1 <= t <= k + 1 && i < q < length
    requires cur[t][q].Empty?
    requires t > k ==> cur[t][i].Empty?
    ensures var d := cur[k][i].driver;
      SweepInv(init, Put(Put(cur, t, q, Car(d)), k, i, Empty), lanes, length, i, k + 1,
               start[d := Spot(k, i)], now[d := Spot(t, q)], exited)
  {
    var d := cur[k][i].driver;
    Unvisited(init, cur, lanes, length, i, k, start, now, exited);
    var cur': Road<D> := Put(Put(cur, t, q, Car(d)), k, i, Empty);
    var start', now' := start[d := Spot(k, i)], now[d := Spot(t, q)];
    MoveUntouched(init, cur, i, k, t, q);
    MoveFrontier(cur, lanes, length, i, k, t, q);
    StartsStep(init, i, k, start);
    MoveMoved(cur, i, k, start, now, t, q);
    assert Exits(start', now', exited);
  }

  lemma MoveUntouched<D>(init: Road<D>, cur: Road<D>, i: int, k: int, t: int, q: int)
    requires |init| == |cur| && forall l :: 0 <= l < |cur| ==> |init[l]| == |cur[l]|
    requires Untouched(init, cur, i, k) && 0 <= k < |cur| && 0 <= i < |cur[k]| && cur[k][i].Car?
    requires 0 <= t < |cur| && i < q < |cur[t]|
    ensures Untouched(init, Put(Put(cur, t, q, cur[k][i]), k, i, Empty), i, k + 1)
  {
  }

  lemma MoveFrontier<D>(cur: Road<D>, lanes: int, length: int, i: int, k: int, t: int, q: int)
    requires Shaped(cur, lanes, length) && 0 <= i < length && 0 <= k < lanes && cur[k][i].Car?
    requires Frontier(cur, lanes, length, i, k)
    requires 0 <= t < lanes && t <= k + 1 && i < q < length
    requires t > k ==> cur[t][i].Empty?
    ensures Frontier(Put(Put(cur, t, q, cur[k][i]), k, i, Empty), lanes, length, i, k + 1)
  {
  }

  lemma MoveMoved<D>(cur: Road<D>, i: int, k: int, start: map<D, Spot>, now: map<D, Spot>, t: int, q: int)
    requires Moved(cur, i, k, start, now) && 0 <= k < |cur| && 0 <= i < |cur[k]| && cur[k][i].Car?
    requires 0 <= t < |cur| && i < q < |cur[t]| && cur[t][q].Empty? && k - 1 <= t <= k + 1
    requires cur[k][i].driver !in now
    ensures var d := cur[k][i].driver;
      Moved(Put(Put(cur, t, q, Car(d)), k, i, Empty), i, k + 1, start[d := Spot(k, i)], now[d := Spot(t, q)])
  {
    var d := cur[k][i].driver;
    var cur': Road<D> := Put(Put(cur, t, q, Car(d)), k, i, Empty);
    var start', now' := start[d := Spot(k, i)], now[d := Spot(t, q)];
    forall e | e in now'
      ensures && e in start' && InRoad(cur', now'[e]) && At(cur', now'[e]) == Car(e)
              && start'[e].pos < now'[e].pos && start'[e].lane - 1 <= now'[e].lane <= start'[e].lane + 1
    {
      if e != d {
        assert now[e] != Spot(k, i) && now[e] != Spot(t, q);
      }
    }
    forall l, p | 0 <= l < |cur'| && 0 <= p < |cur'[l]| && Visited(l, p, i, k + 1) && cur'[l][p].Car?
      ensures cur'[l][p].driver in now' && now'[cur'[l][p].driver] == Spot(l, p)
    {
      if (l != t || p != q) && (l != k || p != i) {
        assert Visited(l, p, i, k);
      }
    }
  }

  /** Once every lane at position i is visited, the sweep moves to position i-1. */
  lemma NextRow<D>(init: Road<D>, cur: Road<D>, lanes: int, length: int, i: int,
                   start: map<D, Spot>, now: map<D, Spot>, exited: seq<D>)
    requires SweepInv(init, cur, lanes, length, i, lanes, start, now, exited)
    requires 0 <= i
    ensures SweepInv(init, cur, lanes, length, i - 1, 0, start, now, exited)
  {
    NextRowUntouched(init, cur, i);
    NextRowFrontier(cur, lanes, length, i);
    NextRowStarts(init, i, start);
    NextRowMoved(cur, i, start, now);
  }

  lemma NextRowUntouched<D>(init: Road<D>, cur: Road<D>, i: int)
    requires |init| == |cur| && forall l :: 0 <= l < |cur| ==> |init[l]| == |cur[l]|
    requires Untouched(init, cur, i, |cur|)
    ensures Untouched(init, cur, i - 1, 0)
  {
    forall l, p | 0 <= l < |cur| && 0 <= p < |cur[l]| && !Visited(l, p, i - 1, 0)
      ensures cur[l][p] == init[l][p]
    {
      assert !Visited(l, p, i, |cur|);
    }
  }

  lemma NextRowFrontier<D>(cur: Road<D>, lanes: int, length: int, i: int)
    requires Shaped(cur, lanes, length) && 0 <= i < length && 0 <= lanes
    requires Frontier(cur, lanes, length, i, lanes)
    ensures Frontier(cur, lanes, length, i - 1, 0)
  {
  }

  lemma NextRowStarts<D>(init: Road<D>, i: int, start: map<D, Spot>)
    requires Starts(init, i, |init|, start)
    ensures Starts(init, i - 1, 0, start)
  {
    forall l, p | 0 <= l < |init| && 0 <= p < |init[l]| && Visited(l, p, i - 1, 0) && init[l][p].Car?
      ensures init[l][p].driver in start && start[init[l][p].driver] == Spot(l, p)
    {
      assert Visited(l, p, i, |init|);
    }
    forall d | d in start ensures Visited(start[d].lane, start[d].pos, i - 1, 0) {
      assert Visited(start[d].lane, start[d].pos, i, |init|);
    }
  }

  lemma NextRowMoved<D>(cur: Road<D>, i: int, start: map<D, Spot>, now: map<D, Spot>)
    requires Moved(cur, i, |cur|, start, now)
    ensures Moved(cur, i - 1, 0, start, now)
  {
    forall l, p | 0 <= l < |cur| && 0 <= p < |cur[l]| && Visited(l, p, i - 1, 0) && cur[l][p].Car?
      ensures cur[l][p].driver in now && now[cur[l][p].driver] == Spot(l, p)
    {
      assert Visited(l, p, i, |cur|);
    }
  }

  // ---------------------------------------------------------------------------
  // The outcome of a whole sweep

  /** What a finished sweep guarantees, from the road `before` to the road
      `after`: `start` maps every driver of `before` to its cell; every driver
      still on the road is in `now`, in one cell strictly ahead of its start
      and at most one lane away; every other driver is listed once in `exited`. */
  ghost predicate Swept<D>(before: Road<D>, after: Road<D>, start: map<D, Spot>, now: map<D, Spot>, exited: seq<D>) {
    && (forall l, p :: 0 <= l < |before| && 0 <= p < |before[l]| && before[l][p].Car? ==>
          before[l][p].driver in start && start[before[l][p].driver] == Spot(l, p))
    && (forall d :: d in start ==> InRoad(before, start[d]) && At(before, start[d]) == Car(d))
    && Moved(after, -1, 0, start, now)
    && Exits(start, now, exited)
  }

  lemma Finish<D>(init: Road<D>, cur: Road<D>, lanes: int, length: int,
                  start: map<D, Spot>, now: map<D, Spot>, exited: seq<D>)
    requires SweepInv(init, cur, lanes, length, -1, 0, start, now, exited)
    ensures Swept(init, cur, start, now, exited) && SingleOccupancy(cur)
  {
    forall l1, p1, l2, p2 | 0 <= l1 < |cur| && 0 <= p1 < |cur[l1]| && 0 <= l2 < |cur| && 0 <= p2 < |cur[l2]| &&
                            cur[l1][p1].Car? && cur[l1][p1] == cur[l2][p2]
      ensures l1 == l2 && p1 == p2
    {
      assert Visited(l1, p1, -1, 0) && Visited(l2, p2, -1, 0);
    }
    forall l, p | 0 <= l < |init| && 0 <= p < |init[l]| && init[l][p].Car?
      ensures init[l][p].driver in start && start[init[l][p].driver] == Spot(l, p)
    {
      assert Visited(l, p, -1, 0);
    }
  }

  /** A sweep adds no driver to the road. */
  lemma {:induction false} SweptAddsNoDriver<D>(before: Road<D>, after: Road<D>, start: map<D, Spot>,
                                                now: map<D, Spot>, exited: seq<D>)
    requires Swept(before, after, start, now, exited)
    ensures OnRoad(after) <= OnRoad(before)
  {
    forall d | d in OnRoad(after) ensures d in OnRoad(before) {
      var l, p :| 0 <= l < |after| && 0 <= p < |after[l]| && after[l][p].Car? && after[l][p].driver == d;
      assert d in now && d in start;
      var s := start[d];
      OnRoadHas(before, s.lane, s.pos);
    }
  }

  /** Every driver that was on the road either is still on it or has exited,
      and no exited driver is on the road. */
  lemma {:induction false} SweptAccountsForAll<D>(before: Road<D>, after: Road<D>, start: map<D, Spot>,
                                                  now: map<D, Spot>, exited: seq<D>)
    requires Swept(before, after, start, now, exited)
    ensures forall d :: d in OnRoad(before) ==> d in OnRoad(after) || d in exited
    ensures forall d :: d in exited ==> d in OnRoad(before) && d !in OnRoad(after)
  {
    forall d | d in OnRoad(before) ensures d in OnRoad(after) || d in exited {
      var l, p :| 0 <= l < |before| && 0 <= p < |before[l]| && before[l][p].Car? && before[l][p].driver == d;
      if d in now {
        OnRoadHas(after, now[d].lane, now[d].pos);
      }
    }
    forall d | d in exited ensures d in OnRoad(before) && d !in OnRoad(after) {
      var j :| 0 <= j < |exited| && exited[j] == d;
      OnRoadHas(before, start[d].lane, start[d].pos);
      forall l, p | 0 <= l < |after| && 0 <= p < |after[l]| && after[l][p].Car?
        ensures after[l][p].driver != d
      {
        assert after[l][p].driver in now;
      }
    }
  }
}
