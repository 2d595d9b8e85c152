/**
  `Reactor::runUntil`: the loop that checks the stop conditions in a fixed
  order on the pending state, then commits the previous tick (except on the
  first iteration), runs one tick and counts it.
*/
module ReactorRun {
  import opened Wrappers
  import opened ReactorTypes
  import opened Components
  import opened ReactorModel
  import opened ReactorTicks

  /** The four switches of `runUntil`, in its parameter order. */
  datatype StopFlags = StopFlags(onMeltdown: bool, onFuelUsed: bool, onCooledDown: bool, onComponentFailed: bool)

  /** The reactor as `runUntil` leaves it and the reason it returns. */
  datatype Run = Run(world: World, reason: StopReason)

  predicate MeltdownStop(w: World, f: StopFlags)
  {
    w.pending.meltdown && f.onMeltdown
  }

  predicate FailureStop(w: World, f: StopFlags)
  {
    w.pending.componentFailed && f.onComponentFailed
  }

  predicate FuelStop(w: World, f: StopFlags)
  {
    w.pending.curTick >= FUEL_TICKS && f.onFuelUsed
  }

  /** No heat left, or less than 100 and unchanged since the last commit. */
  predicate CooledStop(w: World, f: StopFlags)
  {
    (w.pending.totalHeat <= 0 || (w.pending.totalHeat < 100 && w.pending.totalHeat == w.cur.totalHeat))
    && f.onCooledDown
  }

  predicate TimeoutStop(w: World)
  {
    w.pending.curTick >= TIMEOUT_TICKS
  }

  /** The six checks at the head of the loop, first match wins. */
  function Checks(w: World, f: StopFlags): Option<StopReason>
  {
    if MeltdownStop(w, f) then Some(StoppedOnMeltdown)
    else if FailureStop(w, f) then Some(StoppedOnComponentFailed)
    else if FuelStop(w, f) then Some(StoppedOnFuelUsed)
    else if CooledStop(w, f) then Some(StoppedOnCooledDown)
    else if TimeoutStop(w) then Some(StoppedOnMaxTicks)
    else None
  }

  /** The stagnation probe runs when the committed tick is a multiple of 8 and cooldown is monitored. */
  predicate Probes(w: World, f: StopFlags)
  {
    CMod(w.cur.curTick, NO_HEAT_LOSS_CHECK_INTERVAL) == 0 && f.onCooledDown
  }

  /** What a run never touches. */
  predicate SameShape(w: World, r: World)
  {
    r.width == w.width && r.height == w.height && |r.cells| == |w.cells|
    && r.ignoreComponentDestroyed == w.ignoreComponentDestroyed
    && r.numUraniumCells == w.numUraniumCells && r.usesSingleUseCoolant == w.usesSingleUseCoolant
  }

  /** Two grids with components in the same cells. */
  predicate SamePresence(a: seq<Option<Component>>, b: seq<Option<Component>>)
  {
    |a| == |b| && forall i :: 0 <= i < |a| ==> (a[i].Some? <==> b[i].Some?)
  }

  lemma EvolvesKeepsPresence(w: World, r: World)
    requires Evolves(w, r)
    ensures SamePresence(w.cells, r.cells)
  {
    forall i | 0 <= i < |w.cells|
      ensures w.cells[i].Some? <==> r.cells[i].Some?
    {
      EvolvesAt(w, r, i);
    }
  }

  /** The tail of the loop body: commit unless first, one tick, `pendingSimState.curTick++`. */
  function Advance(w: World, first: bool): (r: World)
    requires ValidWorld(w)
    ensures ValidWorld(r) && SameShape(w, r)
    ensures r.pending.curTick == w.pending.curTick + 1
    ensures r.cur == if first then w.cur else w.pending
    ensures Reported(w) ==> Reported(r)
    ensures NoneDestroyed(w.cells) ==> SamePresence(w.cells, r.cells)
  {
    var w1 := if first then w else CommitF(w);
    var w2 := RunTickF(w1);
    EvolvesKeepsPresence(w1.(maxHeat := BASE_MAX_HEAT), w2);
    w2.(pending := w2.pending.(curTick := w2.pending.curTick + 1))
  }

  /**
    The `for(;;)` loop from a given iteration on: `first` says whether no
    iteration has run yet, `last` is `lastTotalHeat` (-1 while unset).
  */
  function RunLoop(w: World, f: StopFlags, first: bool, last: int): (r: Run)
    requires ValidWorld(w)
    ensures ValidWorld(r.world) && SameShape(w, r.world)
    // the reason names the first stop condition that holds on the returned state
    ensures r.reason == StoppedOnMeltdown <==> MeltdownStop(r.world, f)
    ensures r.reason == StoppedOnComponentFailed <==> !MeltdownStop(r.world, f) && FailureStop(r.world, f)
    ensures r.reason == StoppedOnFuelUsed <==>
      !MeltdownStop(r.world, f) && !FailureStop(r.world, f) && FuelStop(r.world, f)
    ensures r.reason == StoppedOnCooledDown <==>
      !MeltdownStop(r.world, f) && !FailureStop(r.world, f) && !FuelStop(r.world, f) && CooledStop(r.world, f)
    ensures r.reason == StoppedOnMaxTicks ==> TimeoutStop(r.world) || f.onCooledDown
    // tick accounting
    ensures r.world.pending.curTick >= w.pending.curTick
    ensures w.pending.curTick <= TIMEOUT_TICKS ==> r.world.pending.curTick <= TIMEOUT_TICKS
    ensures f.onFuelUsed && w.pending.curTick <= FUEL_TICKS ==> r.world.pending.curTick <= FUEL_TICKS
    ensures r.world.pending.curTick == w.pending.curTick ==> r.world == w
    ensures !first && r.world.pending.curTick > w.pending.curTick ==> r.world.cur.curTick + 1 == r.world.pending.curTick
    ensures first && r.world.pending.curTick == w.pending.curTick + 1 ==> r.world.cur == w.cur
    ensures first && r.world.pending.curTick > w.pending.curTick + 1 ==> r.world.cur.curTick + 1 == r.world.pending.curTick
    decreases TIMEOUT_TICKS - w.pending.curTick
  {
    if Checks(w, f).Some? then Run(w, Checks(w, f).value)
    else if Probes(w, f) && last != -1 && last <= w.cur.totalHeat then Run(w, StoppedOnMaxTicks)
    else RunLoop(Advance(w, first), f, false, if Probes(w, f) then w.cur.totalHeat else last)
  }

  /** `runUntil` itself. */
  function RunUntilF(w: World, f: StopFlags): (r: Run)
    requires ValidWorld(w)
    ensures ValidWorld(r.world) && SameShape(w, r.world)
  {
    RunLoop(w, f, true, -1)
  }

  /**
    The first iteration does not commit, so when `runUntil` is entered with
    cooldown monitored on a committed tick that is a multiple of 8, the
    second iteration compares the committed heat with itself and stops:
    exactly one tick is run, and the result is MAX_TICKS unless one of the
    six checks fires on it first.
  */
  lemma StagnationAfterOneTick(w: World, f: StopFlags)
    requires ValidWorld(w) && Probes(w, f) && w.cur.totalHeat != -1 && Checks(w, f).None?
    ensures var w1 := Advance(w, true);
      RunUntilF(w, f) == Run(w1, if Checks(w1, f).Some? then Checks(w1, f).value else StoppedOnMaxTicks)
  {
    var w1 := Advance(w, true);
    assert RunUntilF(w, f) == RunLoop(w1, f, false, w.cur.totalHeat);
    assert w1.cur == w.cur;
    assert Probes(w1, f);
  }

  /** Entered no later than tick 10000 with fuel monitored, a run that stops on fuel has run exactly 10000 ticks. */
  lemma FuelRunLength(w: World, f: StopFlags)
    requires ValidWorld(w) && f.onFuelUsed && 0 <= w.pending.curTick <= FUEL_TICKS
    ensures var r := RunUntilF(w, f);
      r.reason == StoppedOnFuelUsed ==> r.world.pending.curTick == FUEL_TICKS
    ensures RunUntilF(w, f).reason != StoppedOnMaxTicks || f.onCooledDown
  {
  }

  /**
    While failures are monitored and reported, a run loses no component:
    every commit it makes happens with no component destroyed.
  */
  lemma {:induction false} RunKeepsComponents(w: World, f: StopFlags, first: bool, last: int)
    requires ValidWorld(w) && f.onComponentFailed && !w.ignoreComponentDestroyed && Reported(w)
    ensures var r := RunLoop(w, f, first, last);
      SamePresence(w.cells, r.world.cells) && Reported(r.world)
    decreases TIMEOUT_TICKS - w.pending.curTick
  {
    if Checks(w, f).None? && !(Probes(w, f) && last != -1 && last <= w.cur.totalHeat) {
      assert NoneDestroyed(w.cells);
      var w1 := Advance(w, first);
      RunKeepsComponents(w1, f, false, if Probes(w, f) then w.cur.totalHeat else last);
    }
  }
}
