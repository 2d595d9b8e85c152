/**
  The enumerations, plain records and constants of the simulator's header:
  component kinds, simulation phases, stop reasons, the committed/pending
  simulation state and the classification results.
*/
module ReactorTypes {

  /** The closed set of component kinds, in the header's declaration order. */
  datatype ComponentType =
    | ComponentNone
    | HeatVent
    | ReactorHeatVent
    | AdvancedHeatVent
    | ComponentHeatVent
    | OverclockedHeatVent
    | HeatExchanger
    | AdvancedHeatExchanger
    | CoreHeatExchanger
    | ComponentHeatExchanger
    | CoolantCell10
    | CoolantCell30
    | CoolantCell60
    | CondensatorRsh
    | CondensatorLzh
    | UraniumCell
    | DualUraniumCell
    | QuadUraniumCell
    | NeutronReflector
    | ThickNeutronReflector
    | ReactorPlating
    | ContainmentReactorPlating
    | HeatCapacityReactorPlating
    | ComponentCount

  /** The integer value of an enumerator, as `(int)type` gives it. */
  function Ordinal(t: ComponentType): nat
  {
    match t
    case ComponentNone => 0
    case HeatVent => 1
    case ReactorHeatVent => 2
    case AdvancedHeatVent => 3
    case ComponentHeatVent => 4
    case OverclockedHeatVent => 5
    case HeatExchanger => 6
    case AdvancedHeatExchanger => 7
    case CoreHeatExchanger => 8
    case ComponentHeatExchanger => 9
    case CoolantCell10 => 10
    case CoolantCell30 => 11
    case CoolantCell60 => 12
    case CondensatorRsh => 13
    case CondensatorLzh => 14
    case UraniumCell => 15
    case DualUraniumCell => 16
    case QuadUraniumCell => 17
    case NeutronReflector => 18
    case ThickNeutronReflector => 19
    case ReactorPlating => 20
    case ContainmentReactorPlating => 21
    case HeatCapacityReactorPlating => 22
    case ComponentCount => 23
  }

  /** Fuel kinds: the ones `removeFuel` strips and `initializeSimulation` counts. */
  predicate IsFuel(t: ComponentType)
  {
    t == UraniumCell || t == DualUraniumCell || t == QuadUraniumCell
  }

  /** Single-use coolants, which set `usesSingleUseCoolant`. */
  predicate IsCondensatorKind(t: ComponentType)
  {
    t == CondensatorRsh || t == CondensatorLzh
  }

  /** A tick runs the HEAT phase over the whole grid, then the POWER phase. */
  datatype SimPhase = PhaseHeatRun | PhasePower

  datatype StopReason =
    | StoppedOnMeltdown
    | StoppedOnFuelUsed
    | StoppedOnCooledDown
    | StoppedOnComponentFailed
    | StoppedOnMaxTicks

  /** The unit of commit/rollback: one copy is committed, one is pending. */
  datatype SimulationState = SimulationState(
    curTick: int,
    meltdown: bool,
    componentFailed: bool,
    euGenerated: int,
    totalHeat: int,
    reactorHeat: int)

  const DEFAULT_SIMULATION_STATE := SimulationState(0, false, false, 0, 0, 0)

  /**
    The integer and boolean fields of the classification result. The four
    floating-point fields of the source are not part of this model.
  */
  datatype SimulationResults = SimulationResults(
    usesSingleUseCoolant: bool,
    timedOut: bool,
    cooldownTicks: int,
    cycleTicks: int,
    mark: int,
    numIterationsBeforeFailure: int,
    ticksUntilMeltdown: int,
    ticksUntilComponentFailure: int,
    totalCost: int)

  const DEFAULT_RESULTS := SimulationResults(false, false, 0, 0, 0, -1, -1, -1, 0)

  const TIMEOUT_TICKS := 50000
  const FUEL_TICKS := 10000
  const EU_PER_PULSE := 5
  const FUEL_MAX_USAGE := 10000
  const BASE_MAX_HEAT := 10000
  const COMPONENT_COST := 2
  const NO_HEAT_LOSS_CHECK_INTERVAL := 8
  const GRID_HEIGHT := 6

  /** C++ integer division: truncates toward zero. */
  function CDiv(a: int, b: int): (q: int)
    requires b != 0
    ensures b > 0 && a >= 0 ==> q == a / b
    ensures b > 0 && a < 0 ==> q == -((-a) / b)
  {
    if (a >= 0) == (b > 0) then
      (if a >= 0 then a else -a) / (if b > 0 then b else -b)
    else
      -((if a >= 0 then a else -a) / (if b > 0 then b else -b))
  }

  /** C++ remainder: takes the sign of the dividend. */
  function CMod(a: int, b: int): (r: int)
    requires b != 0
    ensures a == CDiv(a, b) * b + r
  {
    a - CDiv(a, b) * b
  }

  /** C++ `(int)` of a double: truncation toward zero (here of an exact real). */
  function TruncToInt(r: real): (n: int)
    ensures r >= 0.0 ==> n as real <= r < n as real + 1.0
    ensures r < 0.0 ==> n as real - 1.0 < r <= n as real
  {
    if r >= 0.0 then r.Floor else -((-r).Floor)
  }
}
