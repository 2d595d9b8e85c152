/**
  `runSimulation` as the program runs it: on the reactor object it is
  given, with the probes run on copies made by the copy constructor. Each
  method is proved to return what the classification functions give.
*/
module Simulator {
  import opened ReactorTypes
  import opened Components
  import opened ReactorModel
  import opened ReactorRun
  import opened ReactorSimulation
  import opened ReactorObject

  /**
    The `minCyclesUntilFailure` loop: the reactor's own count, improved by
    the count of every component of the first run that the rerun still has.
  */
  method MinCyclesUntilFailure(initial: Reactor, rerun: Reactor) returns (m: int)
    requires initial.Valid() && rerun.Valid() && |rerun.components| == |initial.components|
    ensures m == MinCycles(initial.Model(), rerun.Model())
  {
    var start := CyclesUntilFailure(initial.pendingSimState.reactorHeat, rerun.pendingSimState.reactorHeat, initial.maxHeat);
    m := start;
    var i := 0;
    while i < |initial.components|
      invariant 0 <= i <= |initial.components|
      invariant m == MinPrefix(initial.components, rerun.components, i, start)
    {
      if initial.components[i].Some? && rerun.components[i].Some? {
        var a, b := initial.components[i].value, rerun.components[i].value;
        var cuf := CyclesUntilFailure(CurrentHeat(a), CurrentHeat(b), MaxHeatOf(a));
        if cuf != -1 {
          if m == -1 || cuf < m {
            m := cuf;
          }
        }
      }
      i := i + 1;
    }
  }

  /**
    A cooldown probe: a copy of the reactor, rolled back first when the
    first run ended in a failure or meltdown, without its fuel and ignoring
    destruction, run until it cools down.
  */
  method CooldownProbe(initial: Reactor, rollback: bool) returns (cooldown: Reactor, reason: StopReason)
    requires initial.Valid()
    ensures fresh(cooldown) && cooldown.Valid()
    ensures Run(cooldown.Model(), reason)
      == RunUntilF(CooldownStart(if rollback then RollbackF(initial.Model()) else initial.Model()), COOLDOWN_RUN)
  {
    cooldown := new Reactor.Copy(initial);
    if rollback {
      cooldown.Rollback();
    }
    cooldown.RemoveFuel();
    cooldown.ignoreComponentDestroyed := true;
    reason := cooldown.RunUntil(COOLDOWN_RUN);
  }

  /** The run past a component failure: a copy of the reactor, committed, run until meltdown or the fuel is used. */
  method FinishProbe(initial: Reactor) returns (finish: Reactor, reason: StopReason)
    requires initial.Valid()
    ensures fresh(finish) && finish.Valid()
    ensures Run(finish.Model(), reason) == RunUntilF(CommitF(initial.Model()), FINISH_RUN)
  {
    finish := new Reactor.Copy(initial);
    finish.Commit();
    reason := finish.RunUntil(FINISH_RUN);
  }

  /** The second fuel cycle: a copy of the reactor with its usage reset, run like the first. */
  method RerunProbe(initial: Reactor) returns (rerun: Reactor, reason: StopReason)
    requires initial.Valid()
    ensures fresh(rerun) && rerun.Valid() && |rerun.components| == |initial.components|
    ensures Run(rerun.Model(), reason) == RunUntilF(ResetUsageF(initial.Model()), FIRST_RUN)
  {
    rerun := new Reactor.Copy(initial);
    rerun.ResetUsage();
    reason := rerun.RunUntil(FIRST_RUN);
  }

  /** The STOPPED_ON_COMPONENT_FAILED branch. */
  method AfterFailureRun(initial: Reactor, res: SimulationResults) returns (o: SimOutcome)
    requires initial.Valid()
    ensures o == AfterFailure(initial.Model(), res)
  {
    var results := res.(numIterationsBeforeFailure := 0, ticksUntilComponentFailure := initial.curSimState.curTick);
    var cooldown, cooldownStop := CooldownProbe(initial, true);
    cooldown.Commit();
    if cooldownStop == StoppedOnCooledDown {
      results := results.(cooldownTicks := cooldown.curSimState.curTick - initial.pendingSimState.curTick,
                          cycleTicks := cooldown.curSimState.curTick);
    } else if cooldownStop == StoppedOnMaxTicks {
      results := results.(timedOut := true, cycleTicks := -1);
    } else {
      return InvalidStopReason(1, results);
    }
    var finish, finishStop := FinishProbe(initial);
    if CDiv(initial.curSimState.curTick * 100, FUEL_TICKS) >= 10 {
      results := results.(mark := 3);
    } else if CDiv(finish.curSimState.curTick * 100, FUEL_TICKS) >= 10 {
      results := results.(mark := 4);
    } else {
      results := results.(mark := 5);
    }
    if finishStop == StoppedOnMeltdown {
      results := results.(ticksUntilMeltdown := finish.curSimState.curTick);
    }
    o := Completed(results);
  }

  /** The STOPPED_ON_MELTDOWN branch. */
  method AfterMeltdownRun(initial: Reactor, res: SimulationResults) returns (o: SimOutcome)
    requires initial.Valid()
    ensures o == AfterMeltdown(initial.Model(), res)
  {
    var results := res.(numIterationsBeforeFailure := 0, ticksUntilMeltdown := initial.curSimState.curTick);
    if CDiv(initial.curSimState.curTick * 100, FUEL_TICKS) >= 10 {
      results := results.(mark := 3);
    } else {
      results := results.(mark := 5);
    }
    var cooldown, cooldownStop := CooldownProbe(initial, true);
    if cooldownStop == StoppedOnCooledDown {
      results := results.(cooldownTicks := cooldown.curSimState.curTick - initial.pendingSimState.curTick,
                          cycleTicks := cooldown.curSimState.curTick);
    } else if cooldownStop == StoppedOnMaxTicks {
      results := results.(timedOut := true, cycleTicks := -1);
    } else {
      return InvalidStopReason(2, results);
    }
    o := Completed(results);
  }

  /** The STOPPED_ON_FUEL_USED branch: the cooldown probe without rollback, then the rerun. */
  method AfterFuelUsedRun(initial: Reactor, res: SimulationResults) returns (o: SimOutcome)
    requires initial.Valid()
    ensures o == AfterFuelUsed(initial.Model(), res)
  {
    var results := res;
    if initial.curSimState.totalHeat <= 0 {
      return Completed(results.(mark := 1, cycleTicks := FUEL_TICKS));
    }
    var cooldown, cooldownStop := CooldownProbe(initial, false);
    if cooldownStop == StoppedOnCooledDown {
      results := results.(cooldownTicks := cooldown.curSimState.curTick - initial.pendingSimState.curTick,
                          cycleTicks := cooldown.curSimState.curTick);
    } else if cooldownStop == StoppedOnMaxTicks {
      results := results.(timedOut := true, cycleTicks := -1);
    } else {
      return InvalidStopReason(3, results);
    }
    var rerun, rerunStop := RerunProbe(initial);
    if rerunStop == StoppedOnMeltdown || rerunStop == StoppedOnComponentFailed {
      o := Completed(results.(mark := 2, numIterationsBeforeFailure := 1));
    } else if rerunStop == StoppedOnFuelUsed {
      rerun.Commit();
      var m := MinCyclesUntilFailure(initial, rerun);
      if m == -1 {
        o := Completed(results.(mark := 1, cycleTicks := FUEL_TICKS));
      } else {
        o := Completed(results.(mark := 2, numIterationsBeforeFailure := m));
      }
    } else {
      o := InvalidStopReason(4, results);
    }
  }

  /**
    `runSimulation(initialReactor)`: initialise, count the cost, stop at
    once without fuel, otherwise run until the fuel is used, a component
    fails or the reactor melts down, and classify the stop.
  */
  method RunSimulation(initial: Reactor) returns (o: SimOutcome)
    requires initial.Valid()
    modifies initial
    ensures initial.Valid() && initial.Model() == Simulated(old(initial.Model()))
    ensures o == RunSimulationF(old(initial.Model()))
  {
    var results := DEFAULT_RESULTS;
    initial.InitializeSimulation();
    var cost := initial.GetTotalCost();
    results := results.(totalCost := cost);
    if initial.numUraniumCells == 0 {
      return Completed(results);
    }
    var firstStop := initial.RunUntil(FIRST_RUN);
    if firstStop == StoppedOnFuelUsed {
      initial.Commit();
    }
    results := results.(usesSingleUseCoolant := initial.usesSingleUseCoolant);
    if firstStop == StoppedOnComponentFailed {
      o := AfterFailureRun(initial, results);
    } else if firstStop == StoppedOnMeltdown {
      o := AfterMeltdownRun(initial, results);
    } else if firstStop == StoppedOnFuelUsed {
      o := AfterFuelUsedRun(initial, results);
    } else {
      o := InvalidStopReason(5, results);
    }
  }
}
