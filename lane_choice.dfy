/** The four desires of the N-lane engines and the rules that change them:
    the desire a cruise leaves behind, and the choice of a side by a driver
    that wants to change lanes. */
module LaneChoice {
  import opened Roads

  /** A driver's intention. `LaneChangeLeft`/`LaneChangeRight` only live inside
      one update of the driver: they are set and consumed there. */
  datatype Desire = Cruise | LaneChange | LaneChangeLeft | LaneChangeRight

  /** The desire after `sim_cruise`: unchanged at full clearance, `LaneChange`
      in both constrained branches. */
  function CruiseDesire<D>(lane: seq<Cell<D>>, i: nat, speed: nat, follow: nat, before: Desire): Desire {
    if ClearRun(lane, i, speed + follow) == speed + follow then before else LaneChange
  }

  /** Direction resolution of a driver that wants to change lanes: the preferred
      side if it is safe, else the other side if that is safe, else keep wanting.
      Any other desire is left alone. */
  function Resolve(desire: Desire, preferLeft: bool, leftSafe: bool, rightSafe: bool): (r: Desire)
    ensures desire != LaneChange ==> r == desire
    ensures desire == LaneChange ==>
      && (r == LaneChangeLeft <==> leftSafe && (preferLeft || !rightSafe))
      && (r == LaneChangeRight <==> rightSafe && (!preferLeft || !leftSafe))
      && (r == LaneChange <==> !leftSafe && !rightSafe)
  {
    if desire == LaneChange && preferLeft then
      if leftSafe then LaneChangeLeft else if rightSafe then LaneChangeRight else desire
    else if desire == LaneChange && !preferLeft then
      if rightSafe then LaneChangeRight else if leftSafe then LaneChangeLeft else desire
    else desire
  }

  /** The lane a resolved desire moves the driver to. */
  function LaneAfter(lane: int, r: Desire): int {
    if r == LaneChangeLeft then lane - 1 else if r == LaneChangeRight then lane + 1 else lane
  }
}
