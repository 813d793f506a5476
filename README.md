# Highway cellular automaton: the per-tick engine

This project models the engine of a cellular-automaton highway simulator in
Dafny. It covers three versions of the engine and proves properties of the
model.

The road is a list of lanes, and each lane is a list of cells. A cell is
empty or holds a reference to a driver. Every tick sweeps the grid from the
last position back to position 0, and at each position it visits the lanes in
ascending order. At each visited driver, the engine does three things:

- It removes the driver when `speed + i >= length - 1`, and records it.
- Otherwise, a driver that wants to change lanes picks a side, gated by a
  safety scan of the neighbouring lane.
- The driver then cruises. A bounded gap scan decides how far it moves, and
  its old cell is cleared.

The model covers the three versions of the engine:

- `highway_sim_V2.py` (module `HighwayV2`): N lanes (four in the program),
  human and self-driving drivers with different follow distances, and a
  look-behind/look-ahead window of five cells around the target cell.
- `highway_sim1.py` (module `HighwayV1`): two lanes. Every driver keeps the
  same follow distance. The lane-change check looks only at three cells of the
  other lane, and travel times are the output.
- `sim_client_requests.py` (module `ClientRequests`): three default lanes plus
  one self-driving lane, drunk drivers, and a log of incidents (`crashes`).

Shared vocabulary lives in three modules:

- `Roads`: cells, the gap scan, the lane-change window and the landing cell
  of a cruise.
- `LaneChoice`: the desires and the choice of a side.
- `Sweep`: the invariant of the back-to-front sweep, stated on road values,
  with lemmas that carry it across an exit, a move and a change of position.

Drivers, highways and simulations are classes whose fields change in place,
as in the source. The grid is a `seq<seq<Cell<Driver>>>` field that `Set`
reassigns.

Every random draw is a parameter:

- In `HighwayV2`, `preferLeft(lane, pos)` is the outcome of `r <= 0.5` for the
  driver at that cell.
- In `ClientRequests`, a `Draw` says where the redrawn number of a driver that
  wants to change lanes falls: below the driver's incident threshold, on the
  left half, or on the right half. The same number decides both the incident
  and the side. The cruise's own roll is a boolean, "below the threshold".

The main results:

- **One tick** (`ExecuteTimeStep`, in all three modules). Every driver on the
  road when the tick began either:
  - stands afterwards in exactly one cell, strictly ahead of where it started
    and at most one lane away; or
  - has left the road and has its record appended, in the order the drivers
    left.

  No driver appears on the road that was not on it before, and no exited
  driver is still on it. No cell holds a driver twice. In `ClientRequests`,
  the self-driving lane stays empty and the incident log only grows, by
  speeds of drivers.

  In `ClientRequests`, this is the tick built on the corrected cruise of
  "## Findings". With the cruise as written in sim_client_requests.py, a
  driver can stand in two cells or vanish; `AsWrittenDuplicates`,
  `AsWrittenDuplicatesPartial` and `AsWrittenDrops` prove this.
- **One driver update** (`SimDriver`, `SimRightDriver`, `SimLeftDriver`).
  These state exactly what the update does, except that the `ClientRequests`
  update cruises by the corrected cruise of "## Findings":
  - the exit condition, as an if-and-only-if, with the record it produces;
  - the lane it moves to, by the first-safe-side rule;
  - the landing cell, from the gap scan;
  - the new desire.
- **Scans**. `safe_distance_within` equals a reference function (`ClearRun`),
  whose meaning is proved. The lane-change loops equal the window predicate
  `WindowClear`, whose behind part wraps through negative list indices as the
  source's language reads them.

## Model

| member | source | states |
|---|---|---|
| Roads.ClearRun | highway_sim_V2.py:107-115 | the gap scan counts at most k cells: its result lies in [0, k] |
| Roads.ClearRunMeaning | highway_sim_V2.py:107-115 | the x cells after index are free (as far as the lane goes); a result below k means a car stands right after them; the result is k exactly when no car stands in index+1 .. index+k |
| Roads.ClearRunAhead | highway_sim_V2.py:107-115 | the scan reads only the cells after index: two lanes that agree there give the same count |
| Roads.SafeDistanceWithin | highway_sim_V2.py:107-115 | the scan loop (stop with k past the end of the road, stop at the first car) returns the reference count ClearRun |
| Roads.WindowClearMeaning | highway_sim_V2.py:119-133 | the lane-change window in plain positions: cells max(0, i-back) .. i+forward, plus the last back-i cells of the lane when i < back (negative indices wrap) |
| Roads.WindowCovers | highway_sim_V2.py:119-133 | a clear window covers the cell beside the driver and the cells ahead of it |
| Roads.ScanWindow | highway_sim_V2.py:122-132 | the three checks (the cell beside, the look-behind loop, the look-ahead loop) report safe exactly when the window is clear |
| Roads.CruiseTarget | highway_sim_V2.py:234-247 | the landing cell of a cruise lies in i+1 .. i+speed, and is i+speed when all speed+follow cells are clear |
| Roads.CruiseLandsOnEmpty | highway_sim_V2.py:234-247 | when the cell right ahead is free, the landing cell is free |
| Roads.CruiseKeepsFollow | highway_sim_V2.py:241-243 | in the partial branch, the driver ends with exactly follow free cells before the next car |
| Roads.ChangeThenCruise | highway_sim_V2.py:218-228 | moving beside, clearing the old cell and cruising in the new lane writes the same road as one move from the old cell to the landing cell |
| Roads.MoveKeepsSingle | highway_sim_V2.py:234-247 | writing a driver to a free cell and clearing its old cell keeps every driver in at most one cell |
| Roads.MoveKeepsDrivers | highway_sim_V2.py:234-247 | the same move keeps exactly the same drivers on the road |
| LaneChoice.Resolve | highway_sim_V2.py:205-215 | only a "Lane Change" driver changes desire; it goes left exactly when left is safe and (left is preferred or right is unsafe), right symmetrically, and stays "Lane Change" exactly when neither side is safe |
| Sweep.Begin | highway_sim_V2.py:182-186 | before the first visit the sweep invariant holds with nothing visited |
| Sweep.Unvisited | highway_sim_V2.py:182-186 | the driver about to be visited is still in its starting cell and has not been visited, moved or removed this tick |
| Sweep.Skip | highway_sim_V2.py:184-185 | visiting an empty cell keeps the invariant |
| Sweep.ExitStep | highway_sim_V2.py:195-202 | removing the visited driver keeps the invariant and records it once among the exited drivers |
| Sweep.MoveStep | highway_sim_V2.py:218-247 | moving the visited driver strictly ahead, to its own lane or (through a free cell beside it) to a neighbouring lane, onto a free cell keeps the invariant |
| Sweep.NextRow | highway_sim_V2.py:182-183 | after the last lane of position i, the invariant holds for position i-1 |
| Sweep.Finish | highway_sim_V2.py:182-186 | a finished sweep gives the tick's guarantee and leaves no driver in two cells |
| Sweep.SweptAddsNoDriver | highway_sim_V2.py:182-186 | a sweep puts no new driver on the road |
| Sweep.SweptAccountsForAll | highway_sim_V2.py:182-186 | every driver that was on the road is still on it or has exited, and no exited driver is on the road |
| HighwayV2.Driver.constructor | highway_sim_V2.py:58-71 | a new driver cruises, has follow distance 4 when human and 2 otherwise, and zero exit fields |
| HighwayV2.Highway.constructor | highway_sim_V2.py:88-97 | the grid has num_lanes lanes of length empty cells |
| HighwayV2.Highway.Set | highway_sim_V2.py:103-105 | exactly one cell changes |
| HighwayV2.Highway.SafeDistanceWithin | highway_sim_V2.py:107-115 | the scan of one lane of the highway equals ClearRun of that lane |
| HighwayV2.Highway.SafeRightLaneChange | highway_sim_V2.py:119-133 | false in the last lane; otherwise true exactly when the window i-5 .. i+5 of the lane on the right is clear |
| HighwayV2.Highway.SafeLeftLaneChange | highway_sim_V2.py:135-147 | false in lane 0; otherwise true exactly when the window of the lane on the left is clear |
| HighwayV2.Simulation.constructor | highway_sim_V2.py:163-168 | an empty four-lane highway, step 0, no output |
| HighwayV2.Simulation.SimCruise | highway_sim_V2.py:234-247 | the driver lands on the cell CruiseTarget chooses in its lane, the origin is cleared, no other cell changes, and desire becomes "Lane Change" unless the whole window was clear |
| HighwayV2.Simulation.ChooseDirection | highway_sim_V2.py:204-215 | the desire becomes Resolve of the old desire, the draw and the two safety checks |
| HighwayV2.Simulation.ChangeLane | highway_sim_V2.py:218-228 | the changed driver cruises with desire "Cruise" in the target lane; the road ends as one move from the old cell to the landing cell |
| HighwayV2.Simulation.SimDriver | highway_sim_V2.py:191-231 | exits exactly when speed+i >= length-1, then clears the cell, sets the exit fields and appends one record; otherwise moves to the lane Resolve picks and the cell the gap scan picks, through a free cell beside it when changing lanes, with the desire the cruise leaves |
| HighwayV2.Simulation.ExecuteTimeStep | highway_sim_V2.py:179-186 | the sweep: every starting driver moves once, strictly ahead and at most one lane away, or exits with its record in order; no driver is added and no exited driver stays; single occupancy and the driver invariants are kept |
| HighwayV2.Simulation.VisitPosition | highway_sim_V2.py:183-185 | the lanes of one position, visited in ascending order, carry the sweep invariant to the position behind |
| HighwayV2.Simulation.VisitCell | highway_sim_V2.py:184-185 | only an occupied cell is updated; the sweep invariant advances one lane |
| HighwayV2.Simulation.VisitDriver | highway_sim_V2.py:185 | one driver update keeps the sweep invariant, the output and the desires of all starting drivers |
| HighwayV2.VisitStep | highway_sim_V2.py:191-247 | what one update does to the road and the output carries the sweep invariant and the record list |
| HighwayV1.Driver.constructor | highway_sim1.py:33-37 | a new driver cruises with follow distance 4 |
| HighwayV1.Highway.constructor | highway_sim1.py:43-48 | two lanes of length empty cells |
| HighwayV1.Highway.Set | highway_sim1.py:59-60 | exactly one cell changes |
| HighwayV1.Highway.SafeDistanceWithin | highway_sim1.py:63-71 | the scan equals ClearRun of the lane |
| HighwayV1.Highway.SafeRightLaneChange | highway_sim1.py:75-76 | true exactly when the window i .. i+2 of the right lane is clear (no look-behind) |
| HighwayV1.Highway.SafeLeftLaneChange | highway_sim1.py:80-81 | true exactly when the window i .. i+2 of the left lane is clear |
| HighwayV1.ThreeCellWindow | highway_sim1.py:75-81 | a window with nothing behind and two cells ahead is the three cells i, i+1, i+2 |
| HighwayV1.Simulation.constructor | highway_sim1.py:103-107 | an empty two-lane highway, step 0, no travel times |
| HighwayV1.Simulation.SimCruise | highway_sim1.py:187-205 | lands on the CruiseTarget cell, clears the origin, and sets "Lane Change" unless the whole window was clear |
| HighwayV1.Simulation.SimRightDriver | highway_sim1.py:135-157 | exits exactly when speed+i >= length-1 and appends its travel time; otherwise a "Lane Change" driver moves to the left lane with desire "Cruise" exactly when the left window is clear, and cruises in the lane it is in |
| HighwayV1.Simulation.SimLeftDriver | highway_sim1.py:160-184 | the mirror image, moving only to the right lane |
| HighwayV1.Simulation.SimDriverIn | highway_sim1.py:127-132 | dispatching to the driver's lane: it exits, or moves strictly ahead in its own lane or, through a free cell beside it, in the other one |
| HighwayV1.Simulation.ExecuteTimeStep | highway_sim1.py:118-130 | the sweep, left lane before right at each position: every starting driver moves once or exits with its travel time appended in order; no driver is added and no exited driver stays; single occupancy kept |
| HighwayV1.Simulation.VisitPosition | highway_sim1.py:121-130 | the left then the right cell of one position carry the sweep invariant to the position behind |
| HighwayV1.Simulation.VisitCell | highway_sim1.py:124-130 | only an occupied cell is updated; the sweep invariant advances one lane |
| HighwayV1.Simulation.FromStart | highway_sim1.py:124-130 | the driver about to be visited was on the road when the tick began |
| HighwayV1.Simulation.VisitDriver | highway_sim1.py:125-130 | one driver update keeps the sweep invariant and the travel-time list |
| HighwayV1.VisitStep | highway_sim1.py:135-205 | what one update does to the road and the output carries the sweep invariant and the travel-time list |
| HighwayV1.TravelTimesSnoc | highway_sim1.py:141 | appending one exited driver's time extends the list of travel times of the exited drivers |
| ClientRequests.Driver.constructor | sim_client_requests.py:69-83 | a new driver cruises, has follow distance 4 when human and 2 otherwise, keeps its drunk flag |
| ClientRequests.Highway.constructor | sim_client_requests.py:100-110 | default plus self-driving lanes of length empty cells |
| ClientRequests.Highway.Set | sim_client_requests.py:117-118 | exactly one cell changes |
| ClientRequests.Highway.SafeDistanceWithin | sim_client_requests.py:121-129 | the scan equals ClearRun of the lane |
| ClientRequests.Highway.SafeRightLaneChange | sim_client_requests.py:133-145 | false in the last default lane (so nothing moves into the self-driving lane); otherwise true exactly when the window of the lane on the right is clear |
| ClientRequests.Highway.SafeLeftLaneChange | sim_client_requests.py:149-161 | false in lane 0; otherwise true exactly when the window of the lane on the left is clear |
| ClientRequests.Simulation.constructor | sim_client_requests.py:184-190 | an empty 3+1-lane highway, step 0, empty output and incident log |
| ClientRequests.Simulation.SimCruiseAsWritten | sim_client_requests.py:267-288 | the road, desire and log exactly as the statements run: the movement branches, then the incident roll whose last branch writes the driver at i+1 too, then the origin cleared |
| ClientRequests.AsWrittenDuplicates | sim_client_requests.py:272-288 | as written, a sober driver without an incident and with a clear window stands in two cells afterwards |
| ClientRequests.AsWrittenDuplicatesPartial | sim_client_requests.py:274-288 | as written, a sober driver without an incident that the partial branch wrote follow cells behind the next car is written at i+1 as well, so it stands in two cells |
| ClientRequests.AsWrittenDrops | sim_client_requests.py:272-288 | as written, a drunk driver or one with an incident and at most follow free cells ahead is written nowhere |
| ClientRequests.Simulation.SimCruise | sim_client_requests.py:267-288 | the intended cruise: the driver lands on the CruiseTarget cell, the origin is cleared, desire as in the N-lane engine, and the roll only appends the speed to the log |
| ClientRequests.CruisedKeepsDrivers | sim_client_requests.py:267-288 | the intended cruise keeps every driver in exactly one cell and the same drivers on the road |
| ClientRequests.Simulation.ChooseDirection | sim_client_requests.py:237-246 | the desire becomes Resolve of the old desire, the side the draw prefers and the two safety checks |
| ClientRequests.Simulation.ChangeLane | sim_client_requests.py:249-260 | the changed driver cruises with desire "Cruise" in the target lane, one move from the old cell to the landing cell, and the roll may log its speed |
| ClientRequests.Simulation.SimDriver | sim_client_requests.py:213-264 | exits exactly when speed+i >= length-1 with one record and no incident; otherwise a non-cruising driver logs its speed when its draw is below its threshold, takes the side Resolve picks for the same draw (never the self-driving lane), lands where the gap scan says, and the cruise roll may log once more |
| ClientRequests.Simulation.ExecuteTimeStep | sim_client_requests.py:201-208 | the sweep with the intended cruise: every starting driver moves once or exits with its record in order; no driver added; exited drivers are off the road; single occupancy; the self-driving lane stays empty; the incident log only grows, by speeds |
| ClientRequests.Simulation.VisitPosition | sim_client_requests.py:204-208 | the four cells of one position carry the sweep invariant to the position behind |
| ClientRequests.Simulation.VisitCell | sim_client_requests.py:206-208 | only an occupied cell is updated (never one of the self-driving lane); the sweep invariant advances one lane |
| ClientRequests.Simulation.VisitDriver | sim_client_requests.py:208 | one driver update keeps the sweep invariant, the empty self-driving lane, the output and the incident log |
| ClientRequests.Simulation.UpdateDriver | sim_client_requests.py:213-264 | one driver update in the sweep's terms: exit or a move strictly ahead in a default lane, up to two speeds logged, desires of all starting drivers kept valid |
| ClientRequests.VisitStep | sim_client_requests.py:213-264 | what one update does to the road and the output carries the sweep invariant, the empty self-driving lane and the record list |
| ClientRequests.CrashLogGrows | sim_client_requests.py:229-235 | appending up to two speeds keeps the log an extension of the old one by speeds |

## Left out

- `gen_new_drivers` in all three files, with the car-id counter (`numCars` is kept but never changed). Arrivals are random, and they write position 0 without checking that it is empty. In sim_client_requests.py:330 self-driving cars are written to lane `lane + num_def_lanes - 1`, which is lane 2, so the self-driving lane never receives a car. The model proves that the tick keeps that lane empty.
- `run`, `main`, `Highway.print`, `plot_avg_speed`, `average_time` and `avg_travel_time_both_types` are left out. They do console output, plotting, float statistics, and `main` mutates the global arrival probabilities.
- The step counter's increment in `run` is left out; a tick reads `currentStep` and does not change it.
- `random.random()` and the float probability constants (`LEFT_LANE_CHANGE_PROBABILITY`, `CRASH_PROB`, `DRUNK_CRASH_PROB`, `DRUNK_PROBABILITY`) are left out. Each draw is a parameter that says which side of its threshold it fell on. `ClientRequests.Draw` carries the fact that both incident thresholds lie below one half.
- `avg_speed = final_dist / travel_time` is float division. It is not modelled, and `ExitRecord` holds the other seven fields.
- `Highway.can_lane_change` in highway_sim1.py:51-52 is an empty stub that returns nothing.
- `Highway.Get` and `Driver.OutputData` are plain accessors. They are modelled as functions without a contract of their own.
- HighwayV2.Highway.SafeRightLaneChange, HighwayV2.Highway.SafeLeftLaneChange, ClientRequests.Highway.SafeRightLaneChange and ClientRequests.Highway.SafeLeftLaneChange follow the code, not a stricter reading that calls an out-of-range look-behind unsafe. The look-behind indices below 0 wrap to the far end of the lane, as Python reads negative indices.
- All six lane checks require the look-ahead window to end inside the road, and the three `SimCruise` methods require `i + speed < length`. The code raises an index error only when it actually reads or writes past the end: the short-circuit `and` of highway_sim1.py:75-81 stops at an occupied cell i, and `sim_cruise` may land short of i+speed. A driver that does not exit always satisfies these requires for the speeds the source creates, so no reachable call is excluded.
- ClientRequests.Simulation.SimDriver requires a default lane. In the self-driving lane the right-hand check would index past the last lane, and the tick proves that lane holds no car.
- HighwayV2.Simulation.ExecuteTimeStep takes `preferLeft` as a function of the cell, standing for the draw made for the driver there. ClientRequests.Simulation.ExecuteTimeStep does the same with its draws.
- ClientRequests.Simulation.SimDriver: cruises by the corrected cruise (`ClientRequests.Simulation.SimCruise`), not by the cruise as written (`ClientRequests.Simulation.SimCruiseAsWritten`, which no update calls), so it does not describe the program's update when the cruise duplicates or drops the driver (see "## Findings").
- ClientRequests.Simulation.ChangeLane: cruises in the target lane by the corrected cruise, for the same reason.
- ClientRequests.Simulation.UpdateDriver: is built on SimDriver, so it too describes the update with the corrected cruise.
- ClientRequests.Simulation.ExecuteTimeStep: the tick with the corrected cruise. The program's tick as written can leave a driver in two cells or in none, and then the single-occupancy and accounting guarantees fail.
- The per-driver bound of an advance (1 .. speed) is proved for one update (`Roads.CruiseTarget`). The tick states only that each move is strictly ahead.

## Findings

| source | as written | input that shows it | evidently intended | confidence | as-written member | corrected member |
|---|---|---|---|---|---|---|
| sim_client_requests.py:278-287 | the `else` of the incident roll writes the driver at i+1 and sets "Lane Change", even after the full-speed or partial branch already wrote it ahead (the partial case is `ClientRequests.AsWrittenDuplicatesPartial`) | a sober driver at (0, 0) with speed 5, no car in cells 1 .. 9 of its lane and no incident: it ends in cells 5 and 1 | the `else` belongs to the movement branches; the incident roll only logs | not executed | ClientRequests.AsWrittenDuplicates | ClientRequests.CruisedKeepsDrivers |
| sim_client_requests.py:272-288 | when the gap is at most the follow distance, only the `else` of the roll writes the driver; a drunk driver or an incident writes it nowhere, yet the origin is cleared | a drunk driver at (0, 0) with follow 4 and a car at (0, 2): it disappears, with no exit record | the driver moves one cell as in the other versions | not executed | ClientRequests.AsWrittenDrops | ClientRequests.CruisedKeepsDrivers |
