/**
  `runSimulation`: classify a reactor design by running it once until the
  fuel is used up, a component fails or it melts down, then probing copies
  of it (cooldown without fuel, a run past the failure, a second fuel
  cycle) and turning the outcome into a mark from I to V.
*/
module ReactorSimulation {
  import opened Wrappers
  import opened ReactorTypes
  import opened Components
  import opened ReactorModel
  import opened ReactorRun

  /**
    The results, or the partial results at which one of the five
    "Invalid stop reason" branches gives up (site 1 to 5 in source order).
  */
  datatype SimOutcome = Completed(results: SimulationResults) | InvalidStopReason(site: int, partial: SimulationResults)

  /** `runUntil(true, true, false, true)`: the first run and the rerun. */
  const FIRST_RUN := StopFlags(true, true, false, true)
  /** `runUntil(false, false, true, false)`: the cooldown probes. */
  const COOLDOWN_RUN := StopFlags(false, false, true, false)
  /** `runUntil(true, true, false, false)`: the run past a component failure. */
  const FINISH_RUN := StopFlags(true, true, false, false)

  /** At least 10% of a fuel cycle, as `tick * 100 / fuelTicks >= 10` decides it. */
  predicate LongRun(tick: int)
  {
    CDiv(tick * 100, FUEL_TICKS) >= 10
  }

  lemma LongRunIff(tick: int)
    ensures LongRun(tick) <==> tick >= 1000
  {
    if tick < 0 {
      assert CDiv(tick * 100, FUEL_TICKS) == -((-tick * 100) / FUEL_TICKS);
    }
  }

  /** A copy of the reactor with the fuel removed and destruction ignored. */
  function CooldownStart(w: World): (r: World)
    requires ValidWorld(w)
    ensures ValidWorld(r) && r.ignoreComponentDestroyed
    ensures forall i :: 0 <= i < |r.cells| && r.cells[i].Some? ==> !IsFuel(r.cells[i].value.kind)
  {
    RemoveFuelF(w).(ignoreComponentDestroyed := true)
  }

  /** How the three cooldown probes record their run; `site` is used when the reason is neither. */
  function RecordCooldown(res: SimulationResults, reason: StopReason, endTick: int, startTick: int, site: int): (o: SimOutcome)
    ensures o.Completed? <==> reason == StoppedOnCooledDown || reason == StoppedOnMaxTicks
    ensures o.Completed? ==> o.results.mark == res.mark && o.results.numIterationsBeforeFailure == res.numIterationsBeforeFailure
    ensures o.Completed? ==> (o.results.timedOut <==> reason == StoppedOnMaxTicks || res.timedOut)
  {
    if reason == StoppedOnCooledDown then Completed(res.(cooldownTicks := endTick - startTick, cycleTicks := endTick))
    else if reason == StoppedOnMaxTicks then Completed(res.(timedOut := true, cycleTicks := -1))
    else InvalidStopReason(site, res)
  }

  /** The `minCyclesUntilFailure` update: a known count replaces an unknown or larger one. */
  function Better(m: int, cuf: int): int
  {
    if cuf != -1 && (m == -1 || cuf < m) then cuf else m
  }

  /** The cycles a component in cell i has before failing, or -1 (also when the rerun lost it). */
  function Candidate(a: seq<Option<Component>>, b: seq<Option<Component>>, i: int): int
    requires 0 <= i < |a| && |b| == |a|
  {
    if a[i].Some? && b[i].Some? then
      CyclesUntilFailure(CurrentHeat(a[i].value), CurrentHeat(b[i].value), MaxHeatOf(a[i].value))
    else -1
  }

  /** The loop over the first n cells, starting from the reactor's own count. */
  function MinPrefix(a: seq<Option<Component>>, b: seq<Option<Component>>, n: int, start: int): int
    requires 0 <= n <= |a| && |b| == |a|
  {
    if n == 0 then start else Better(MinPrefix(a, b, n - 1, start), Candidate(a, b, n - 1))
  }

  /**
    The loop yields -1 exactly when no count is known, and otherwise the
    least known count, which is one of the counts.
  */
  lemma {:induction false} MinPrefixIsLeast(a: seq<Option<Component>>, b: seq<Option<Component>>, n: int, start: int)
    requires 0 <= n <= |a| && |b| == |a|
    ensures var m := MinPrefix(a, b, n, start);
      (m == -1 <==> start == -1 && forall i :: 0 <= i < n ==> Candidate(a, b, i) == -1)
      && (m != -1 ==> (start != -1 ==> m <= start) && forall i :: 0 <= i < n && Candidate(a, b, i) != -1 ==> m <= Candidate(a, b, i))
      && (m == start || exists i :: 0 <= i < n && m == Candidate(a, b, i))
  {
    if n > 0 {
      MinPrefixIsLeast(a, b, n - 1, start);
    }
  }

  /** The number of cycles until the first failure, over the reactor and every component. */
  function MinCycles(first: World, second: World): int
    requires |second.cells| == |first.cells|
  {
    MinPrefix(first.cells, second.cells, |first.cells|,
      CyclesUntilFailure(first.pending.reactorHeat, second.pending.reactorHeat, first.maxHeat))
  }

  /** The first run, on the initialised reactor. */
  function FirstRun(w0: World): (r: Run)
    requires ValidWorld(w0)
    ensures ValidWorld(r.world)
  {
    RunUntilF(InitializeF(w0), FIRST_RUN)
  }

  /** A component failed first: cooldown from the rollback, then a run with the failure kept. */
  function AfterFailure(init: World, res: SimulationResults): (o: SimOutcome)
    requires ValidWorld(init)
  {
    var res := res.(numIterationsBeforeFailure := 0, ticksUntilComponentFailure := init.cur.curTick);
    var cool := RunUntilF(CooldownStart(RollbackF(init)), COOLDOWN_RUN);
    var cooled := CommitF(cool.world);
    var rec := RecordCooldown(res, cool.reason, cooled.cur.curTick, init.pending.curTick, 1);
    if rec.InvalidStopReason? then rec
    else
      var finish := RunUntilF(CommitF(init), FINISH_RUN);
      var mark := if LongRun(init.cur.curTick) then 3 else if LongRun(finish.world.cur.curTick) then 4 else 5;
      var res := rec.results.(mark := mark);
      Completed(if finish.reason == StoppedOnMeltdown then res.(ticksUntilMeltdown := finish.world.cur.curTick) else res)
  }

  /** The reactor melted down first: mark III or V, then cooldown from the rollback, uncommitted. */
  function AfterMeltdown(init: World, res: SimulationResults): (o: SimOutcome)
    requires ValidWorld(init)
  {
    var res := res.(numIterationsBeforeFailure := 0, ticksUntilMeltdown := init.cur.curTick,
                    mark := if LongRun(init.cur.curTick) then 3 else 5);
    var cool := RunUntilF(CooldownStart(RollbackF(init)), COOLDOWN_RUN);
    RecordCooldown(res, cool.reason, cool.world.cur.curTick, init.pending.curTick, 2)
  }

  /**
    The fuel was used up: mark I with no heat left; otherwise a cooldown
    probe and a second fuel cycle from the reached heat decide between I and II.
  */
  function AfterFuelUsed(init: World, res: SimulationResults): (o: SimOutcome)
    requires ValidWorld(init)
  {
    if init.cur.totalHeat <= 0 then Completed(res.(mark := 1, cycleTicks := FUEL_TICKS))
    else
      var cool := RunUntilF(CooldownStart(init), COOLDOWN_RUN);
      var rec := RecordCooldown(res, cool.reason, cool.world.cur.curTick, init.pending.curTick, 3);
      if rec.InvalidStopReason? then rec
      else
        var rerun := RunUntilF(ResetUsageF(init), FIRST_RUN);
        var res := rec.results;
        if rerun.reason == StoppedOnMeltdown || rerun.reason == StoppedOnComponentFailed then
          Completed(res.(mark := 2, numIterationsBeforeFailure := 1))
        else if rerun.reason == StoppedOnFuelUsed then
          var m := MinCycles(init, CommitF(rerun.world));
          if m == -1 then Completed(res.(mark := 1, cycleTicks := FUEL_TICKS))
          else Completed(res.(mark := 2, numIterationsBeforeFailure := m))
        else InvalidStopReason(4, res)
  }

  /**
    The reactor handed to `runSimulation` as it is left: initialised and,
    when it holds fuel, run once and committed if the fuel was used up.
  */
  function Simulated(w0: World): (r: World)
    requires ValidWorld(w0)
    ensures ValidWorld(r) && |r.cells| == |w0.cells|
  {
    var w := InitializeF(w0);
    if w.numUraniumCells == 0 then w
    else
      var first := RunUntilF(w, FIRST_RUN);
      if first.reason == StoppedOnFuelUsed then CommitF(first.world) else first.world
  }

  /** `runSimulation` on a reactor whose grid has been set. */
  function RunSimulationF(w0: World): (o: SimOutcome)
    requires ValidWorld(w0)
  {
    var w := InitializeF(w0);
    var res := DEFAULT_RESULTS.(totalCost := CostSum(w.cells));
    if w.numUraniumCells == 0 then Completed(res)
    else
      var first := RunUntilF(w, FIRST_RUN);
      var init := Simulated(w0);
      var res := res.(usesSingleUseCoolant := init.usesSingleUseCoolant);
      match first.reason
      case StoppedOnComponentFailed => AfterFailure(init, res)
      case StoppedOnMeltdown => AfterMeltdown(init, res)
      case StoppedOnFuelUsed => AfterFuelUsed(init, res)
      case _ => InvalidStopReason(5, res)
  }

  // ----- Properties of the classification -----

  /** The first run stops on meltdown, a failure or the fuel, and never after tick 10000. */
  lemma FirstRunReasons(w0: World)
    requires ValidWorld(w0)
    ensures var r := FirstRun(w0);
      (r.reason == StoppedOnMeltdown || r.reason == StoppedOnComponentFailed || r.reason == StoppedOnFuelUsed)
      && 0 <= r.world.pending.curTick <= FUEL_TICKS
      && (r.reason == StoppedOnFuelUsed ==> r.world.pending.curTick == FUEL_TICKS && !r.world.pending.componentFailed)
  {
  }

  /** With no fuel in the grid only the total cost is filled in: twice the number of components. */
  lemma NoFuelOnlyCost(w0: World)
    requires ValidWorld(w0)
    requires forall i :: 0 <= i < |w0.cells| && w0.cells[i].Some? ==> !IsFuel(w0.cells[i].value.kind)
    ensures RunSimulationF(w0) == Completed(DEFAULT_RESULTS.(totalCost := 2 * PresentCount(w0.cells)))
  {
    InitializeCounts(w0);
    CostIsTwicePresent(w0.cells);
  }

  /** A cooldown probe stops only when the heat is gone or when it times out. */
  lemma CooldownReasons(w: World)
    requires ValidWorld(w)
    ensures var r := RunUntilF(w, COOLDOWN_RUN);
      r.reason == StoppedOnCooledDown || r.reason == StoppedOnMaxTicks
  {
  }

  lemma AfterFailureFacts(init: World, res: SimulationResults)
    requires ValidWorld(init)
    ensures var o := AfterFailure(init, res);
      o.Completed? && (o.results.mark == 3 <==> LongRun(init.cur.curTick)) && 3 <= o.results.mark <= 5
      && o.results.ticksUntilComponentFailure == init.cur.curTick && o.results.numIterationsBeforeFailure == 0
  {
    CooldownReasons(CooldownStart(RollbackF(init)));
  }

  lemma AfterMeltdownFacts(init: World, res: SimulationResults)
    requires ValidWorld(init)
    ensures var o := AfterMeltdown(init, res);
      o.Completed? && o.results.mark == (if LongRun(init.cur.curTick) then 3 else 5)
      && o.results.ticksUntilMeltdown == init.cur.curTick && o.results.numIterationsBeforeFailure == 0
  {
    CooldownReasons(CooldownStart(RollbackF(init)));
  }

  lemma AfterFuelUsedFacts(init: World, res: SimulationResults)
    requires ValidWorld(init)
    ensures var o := AfterFuelUsed(init, res);
      o.Completed? && (o.results.mark == 1 || o.results.mark == 2)
      && (init.cur.totalHeat <= 0 ==> o.results.mark == 1)
      && (o.results.mark == 1 ==> o.results.cycleTicks == FUEL_TICKS)
  {
    if init.cur.totalHeat > 0 {
      CooldownReasons(CooldownStart(init));
      var rerun := RunUntilF(ResetUsageF(init), FIRST_RUN);
      assert rerun.world.pending.curTick <= FUEL_TICKS;
    }
  }

  /**
    None of the five "Invalid stop reason" branches can be reached: the
    cooldown probes only stop on cooldown or timeout, and the first run and
    the rerun, starting at tick 0 with the fuel monitored, never time out.
  */
  lemma AlwaysCompletes(w0: World)
    requires ValidWorld(w0)
    ensures RunSimulationF(w0).Completed?
  {
    var w := InitializeF(w0);
    if w.numUraniumCells != 0 {
      FirstRunReasons(w0);
      var first := FirstRun(w0);
      var init := if first.reason == StoppedOnFuelUsed then CommitF(first.world) else first.world;
      var res := DEFAULT_RESULTS.(totalCost := CostSum(w.cells), usesSingleUseCoolant := init.usesSingleUseCoolant);
      if first.reason == StoppedOnComponentFailed {
        AfterFailureFacts(init, res);
      } else if first.reason == StoppedOnMeltdown {
        AfterMeltdownFacts(init, res);
      } else {
        AfterFuelUsedFacts(init, res);
      }
    }
  }

  /** A design with fuel gets a mark from I to V; one without gets none. */
  lemma MarkRange(w0: World)
    requires ValidWorld(w0)
    ensures var o := RunSimulationF(w0);
      o.Completed?
      && (InitializeF(w0).numUraniumCells == 0 <==> o.results.mark == 0)
      && (InitializeF(w0).numUraniumCells != 0 ==> 1 <= o.results.mark <= 5)
  {
    var w := InitializeF(w0);
    if w.numUraniumCells != 0 {
      FirstRunReasons(w0);
      var first := FirstRun(w0);
      var init := if first.reason == StoppedOnFuelUsed then CommitF(first.world) else first.world;
      var res := DEFAULT_RESULTS.(totalCost := CostSum(w.cells), usesSingleUseCoolant := init.usesSingleUseCoolant);
      if first.reason == StoppedOnComponentFailed {
        AfterFailureFacts(init, res);
      } else if first.reason == StoppedOnMeltdown {
        AfterMeltdownFacts(init, res);
      } else {
        AfterFuelUsedFacts(init, res);
      }
    }
  }

  /**
    When a component fails first, the mark is III if the failure came at
    tick 1000 or later (10% of a fuel cycle), otherwise IV or V.
  */
  lemma FailureMarks(w0: World)
    requires ValidWorld(w0) && InitializeF(w0).numUraniumCells != 0
    requires FirstRun(w0).reason == StoppedOnComponentFailed
    ensures var o := RunSimulationF(w0); var tick := FirstRun(w0).world.cur.curTick;
      o.Completed? && (o.results.mark == 3 <==> tick >= 1000) && 3 <= o.results.mark <= 5
      && o.results.ticksUntilComponentFailure == tick && o.results.numIterationsBeforeFailure == 0
  {
    var w := InitializeF(w0);
    var init := FirstRun(w0).world;
    AfterFailureFacts(init, DEFAULT_RESULTS.(totalCost := CostSum(w.cells), usesSingleUseCoolant := init.usesSingleUseCoolant));
    LongRunIff(init.cur.curTick);
  }

  /** When the reactor melts down first, the mark is III from tick 1000 on and V before. */
  lemma MeltdownMarks(w0: World)
    requires ValidWorld(w0) && InitializeF(w0).numUraniumCells != 0
    requires FirstRun(w0).reason == StoppedOnMeltdown
    ensures var o := RunSimulationF(w0); var tick := FirstRun(w0).world.cur.curTick;
      o.Completed? && o.results.mark == (if tick >= 1000 then 3 else 5)
      && o.results.ticksUntilMeltdown == tick && o.results.numIterationsBeforeFailure == 0
  {
    var w := InitializeF(w0);
    var init := FirstRun(w0).world;
    AfterMeltdownFacts(init, DEFAULT_RESULTS.(totalCost := CostSum(w.cells), usesSingleUseCoolant := init.usesSingleUseCoolant));
    LongRunIff(init.cur.curTick);
  }

  /**
    When the fuel is used up the mark is I or II; a reactor with no heat
    left at that point is a mark I whose cycle is the 10000 fuel ticks, and
    every mark I has that cycle length.
  */
  lemma FuelUsedMarks(w0: World)
    requires ValidWorld(w0) && InitializeF(w0).numUraniumCells != 0
    requires FirstRun(w0).reason == StoppedOnFuelUsed
    ensures var o := RunSimulationF(w0);
      o.Completed? && (o.results.mark == 1 || o.results.mark == 2)
      && (FirstRun(w0).world.pending.totalHeat <= 0 ==> o.results.mark == 1 && o.results.cycleTicks == FUEL_TICKS)
      && (o.results.mark == 1 ==> o.results.cycleTicks == FUEL_TICKS)
  {
    var w := InitializeF(w0);
    var init := CommitF(FirstRun(w0).world);
    AfterFuelUsedFacts(init, DEFAULT_RESULTS.(totalCost := CostSum(w.cells), usesSingleUseCoolant := init.usesSingleUseCoolant));
  }

  /**
    In the second fuel cycle of a reactor that does not ignore destruction,
    every component of the first cycle is still in its cell when the cycles
    until failure are compared, so no cell is skipped.
  */
  lemma RerunKeepsComponents(init: World)
    requires ValidWorld(init) && !init.ignoreComponentDestroyed && NoneDestroyed(init.cells)
    ensures var rerun := RunUntilF(ResetUsageF(init), FIRST_RUN);
      rerun.reason == StoppedOnFuelUsed ==> SamePresence(init.cells, CommitF(rerun.world).cells)
  {
    var start := ResetUsageF(init);
    assert NoneDestroyed(start.cells) by {
      forall i | 0 <= i < |start.cells| && start.cells[i].Some?
        ensures !start.cells[i].value.pendingDestroyed
      {
        assert init.cells[i].Some?;
      }
    }
    RunKeepsComponents(start, FIRST_RUN, true, -1);
  }
}
