/**
  One grid cell's component: its kind, position and cost, the committed
  ("last") and pending copies of its destroyed flag and of its own state
  value, and the per-kind rules that do not touch the rest of the reactor.
*/
module Components {
  import opened Wrappers
  import opened ReactorTypes

  /** The heat store of a heat-storing component (vents, exchangers, coolant cells). */
  datatype HeatStore = HeatStore(lastHeat: int, pendingHeat: int, maxHeat: int)

  /** The kind-specific part of a component, one variant per component class. */
  datatype Part =
    | Vent(store: HeatStore, heatDissipated: int, heatFromReactor: int)
    | SpreadVent(heatFromEach: int)
    | Exchanger(store: HeatStore, transferToAdjacent: int, transferToCore: int)
    | Coolant(store: HeatStore)
    | Condensator(maxStoredHeat: int, lastStoredHeat: int, pendingStoredHeat: int)
    | FuelCell(numCells: int, lastUsage: int, pendingUsage: int, maxUsage: int)
    | Reflector(lastUsage: int, pendingUsage: int, maxUsage: int)
    | Plating(heatAddition: int)

  datatype Component = Component(
    kind: ComponentType,
    x: int,
    y: int,
    cost: int,
    lastDestroyed: bool,
    pendingDestroyed: bool,
    part: Part)

  function FreshStore(maxHeat: int): HeatStore
  {
    HeatStore(0, 0, maxHeat)
  }

  /** The part `create` builds for each kind, with all state at zero. */
  function Blueprint(t: ComponentType): Option<Part>
  {
    match t
    case ComponentNone => None
    case HeatVent => Some(Vent(FreshStore(1000), 6, 0))
    case ReactorHeatVent => Some(Vent(FreshStore(1000), 5, 5))
    case AdvancedHeatVent => Some(Vent(FreshStore(1000), 12, 0))
    case OverclockedHeatVent => Some(Vent(FreshStore(1000), 20, 36))
    case ComponentHeatVent => Some(SpreadVent(4))
    case HeatExchanger => Some(Exchanger(FreshStore(2500), 12, 4))
    case AdvancedHeatExchanger => Some(Exchanger(FreshStore(5000), 24, 8))
    case CoreHeatExchanger => Some(Exchanger(FreshStore(2500), 0, 72))
    case ComponentHeatExchanger => Some(Exchanger(FreshStore(5000), 36, 0))
    case CoolantCell10 => Some(Coolant(FreshStore(10000)))
    case CoolantCell30 => Some(Coolant(FreshStore(30000)))
    case CoolantCell60 => Some(Coolant(FreshStore(60000)))
    case CondensatorRsh => Some(Condensator(20000, 0, 0))
    case CondensatorLzh => Some(Condensator(100000, 0, 0))
    case UraniumCell => Some(FuelCell(1, 0, 0, FUEL_MAX_USAGE))
    case DualUraniumCell => Some(FuelCell(2, 0, 0, FUEL_MAX_USAGE))
    case QuadUraniumCell => Some(FuelCell(4, 0, 0, FUEL_MAX_USAGE))
    case NeutronReflector => Some(Reflector(0, 0, 10000))
    case ThickNeutronReflector => Some(Reflector(0, 0, 40000))
    case ReactorPlating => Some(Plating(1000))
    case ContainmentReactorPlating => Some(Plating(500))
    case HeatCapacityReactorPlating => Some(Plating(1700))
    case ComponentCount => None
  }

  /** The part with its state values zeroed: what `create` fixes once and for all. */
  function Parameters(p: Part): Part
  {
    match p
    case Vent(s, d, f) => Vent(FreshStore(s.maxHeat), d, f)
    case SpreadVent(_) => p
    case Exchanger(s, a, c) => Exchanger(FreshStore(s.maxHeat), a, c)
    case Coolant(s) => Coolant(FreshStore(s.maxHeat))
    case Condensator(m, _, _) => Condensator(m, 0, 0)
    case FuelCell(n, _, _, m) => FuelCell(n, 0, 0, m)
    case Reflector(_, _, m) => Reflector(0, 0, m)
    case Plating(_) => p
  }

  /** The variants derived from the header's Heatable class. */
  predicate IsHeatable(p: Part)
  {
    p.Vent? || p.Exchanger? || p.Coolant?
  }

  /**
    Each part holds at most one committed/pending pair: the heat of a heat
    store, the stored heat of a condensator, or the usage of a fuel cell or a
    reflector. These give the pending and the committed value of that pair.
  */
  function PendingValue(p: Part): int
  {
    match p
    case Vent(s, _, _) => s.pendingHeat
    case Exchanger(s, _, _) => s.pendingHeat
    case Coolant(s) => s.pendingHeat
    case Condensator(_, _, q) => q
    case FuelCell(_, _, u, _) => u
    case Reflector(_, u, _) => u
    case _ => 0
  }

  function LastValue(p: Part): int
  {
    match p
    case Vent(s, _, _) => s.lastHeat
    case Exchanger(s, _, _) => s.lastHeat
    case Coolant(s) => s.lastHeat
    case Condensator(_, l, _) => l
    case FuelCell(_, l, _, _) => l
    case Reflector(l, _, _) => l
    case _ => 0
  }

  /** Rebuilds a part from its parameters and its two state values. */
  function WithValues(p: Part, last: int, pending: int): (r: Part)
    ensures Parameters(r) == Parameters(p)
  {
    match p
    case Vent(s, d, f) => Vent(HeatStore(last, pending, s.maxHeat), d, f)
    case SpreadVent(_) => p
    case Exchanger(s, a, c) => Exchanger(HeatStore(last, pending, s.maxHeat), a, c)
    case Coolant(s) => Coolant(HeatStore(last, pending, s.maxHeat))
    case Condensator(m, _, _) => Condensator(m, last, pending)
    case FuelCell(n, _, _, m) => FuelCell(n, last, pending, m)
    case Reflector(_, _, m) => Reflector(last, pending, m)
    case Plating(_) => p
  }

  /** A part is determined by its parameters and its two state values. */
  lemma PartExtensionality(p: Part, q: Part)
    requires Parameters(p) == Parameters(q)
    requires LastValue(p) == LastValue(q) && PendingValue(p) == PendingValue(q)
    ensures p == q
  {
    match p
    case Vent(s, _, _) =>
      assert FreshStore(s.maxHeat) == FreshStore(q.store.maxHeat);
    case Exchanger(s, _, _) =>
      assert FreshStore(s.maxHeat) == FreshStore(q.store.maxHeat);
    case Coolant(s) =>
      assert FreshStore(s.maxHeat) == FreshStore(q.store.maxHeat);
    case _ =>
  }

  /** A heat store keeps its heat within [0, maxHeat]. */
  predicate StoreInBounds(s: HeatStore)
  {
    0 <= s.lastHeat <= s.maxHeat && 0 <= s.pendingHeat <= s.maxHeat
  }

  /** Heat stores stay in bounds; a condensator never stores more than its capacity. */
  predicate StateInBounds(p: Part)
  {
    match p
    case Vent(s, _, _) => StoreInBounds(s)
    case Exchanger(s, _, _) => StoreInBounds(s)
    case Coolant(s) => StoreInBounds(s)
    case Condensator(m, l, q) => l <= m && q <= m
    case _ => true
  }

  /** The invariant of every component in a grid: built by `create`, state in bounds. */
  predicate ValidComponent(c: Component)
  {
    c.cost == COMPONENT_COST && Blueprint(c.kind) == Some(Parameters(c.part)) && StateInBounds(c.part)
  }

  /** A fuel component covers one, two or four uranium cells. */
  lemma FuelCellSize(c: Component)
    requires ValidComponent(c) && c.part.FuelCell?
    ensures c.part.numCells == 1 || c.part.numCells == 2 || c.part.numCells == 4
  {
    ParameterFacts(c);
  }

  /** The constants every component kind is built with, as facts about a valid component. */
  lemma ParameterFacts(c: Component)
    requires ValidComponent(c)
    ensures c.part.Vent? ==> c.part.store.maxHeat == 1000 && c.part.heatDissipated > 0 && c.part.heatFromReactor >= 0
    ensures c.part.Exchanger? ==> c.part.store.maxHeat > 0 && c.part.transferToAdjacent >= 0 && c.part.transferToCore >= 0
    ensures c.part.SpreadVent? ==> c.part.heatFromEach == 4
    ensures c.part.Coolant? ==> c.part.store.maxHeat > 0
    ensures c.part.Condensator? ==> c.part.maxStoredHeat > 0
    ensures c.part.FuelCell? ==> (c.part.numCells == 1 || c.part.numCells == 2 || c.part.numCells == 4) && c.part.maxUsage == FUEL_MAX_USAGE
    ensures c.part.FuelCell? <==> IsFuel(c.kind)
    ensures c.part.Reflector? ==> c.part.maxUsage > 0
    ensures c.part.Plating? ==> c.part.heatAddition > 0
  {
  }

  /**
    `ReactorComponent::create`: a fresh component of kind `t` at (x, y), or
    null for COMPONENT_NONE and for the `default:` branch.
  */
  function Create(t: ComponentType, x: int, y: int): (r: Option<Component>)
    ensures r.Some? <==> t != ComponentNone && t != ComponentCount
    ensures r.Some? ==> r.value.kind == t && r.value.x == x && r.value.y == y
    ensures r.Some? ==> r.value.cost == 2 && !r.value.lastDestroyed && !r.value.pendingDestroyed
    ensures r.Some? ==> ValidComponent(r.value) && PendingValue(r.value.part) == 0 && LastValue(r.value.part) == 0
  {
    match Blueprint(t)
    case None => None
    case Some(p) => Some(Component(t, x, y, COMPONENT_COST, false, false, p))
  }

  /** `canStoreHeat`: heat stores always; a condensator while it is not full; others never. */
  predicate CanStoreHeat(c: Component)
  {
    match c.part
    case Vent(_, _, _) => true
    case Exchanger(_, _, _) => true
    case Coolant(_) => true
    case Condensator(m, _, q) => q < m
    case _ => false
  }

  /** `getMaxHeat`: the store's capacity, a condensator's capacity, 0 otherwise. */
  function MaxHeatOf(c: Component): int
  {
    match c.part
    case Vent(s, _, _) => s.maxHeat
    case Exchanger(s, _, _) => s.maxHeat
    case Coolant(s) => s.maxHeat
    case Condensator(m, _, _) => m
    case _ => 0
  }

  /** `getCurrentHeat`: a heat store's pending heat; 0 for every other part, condensators included. */
  function CurrentHeat(c: Component): int
  {
    if IsHeatable(c.part) then c.part.store.pendingHeat else 0
  }

  /**
    The behaviour a component class inherits when it overrides nothing:
    it cannot store heat, has maximum and current heat 0, and `alterHeat`
    hands its argument back untouched.
  */
  lemma DefaultCapabilities(c: Component, heat: int)
    requires c.part.SpreadVent? || c.part.FuelCell? || c.part.Reflector? || c.part.Plating?
    ensures !CanStoreHeat(c) && MaxHeatOf(c) == 0 && CurrentHeat(c) == 0
    ensures AlterPart(c.part, heat) == Altered(c.part, heat, false)
  {
  }

  /**
    `Heatable::alterHeat` on the store: the new store, the heat handed back,
    and whether the store overflowed (the caller then marks the component
    destroyed).
  */
  function AlterStore(s: HeatStore, heat: int): (r: (HeatStore, int, bool))
    ensures r.0.lastHeat == s.lastHeat && r.0.maxHeat == s.maxHeat
    ensures r.1 <= 0
    ensures r.2 <==> s.pendingHeat + heat > s.maxHeat
    ensures r.2 ==> r.0 == s && r.1 == s.maxHeat - (s.pendingHeat + heat) + 1
    ensures 0 <= s.pendingHeat + heat <= s.maxHeat ==> r.0.pendingHeat == s.pendingHeat + heat && r.1 == 0
    ensures s.pendingHeat + heat < 0 && !r.2 ==> r.0.pendingHeat == 0 && r.1 == s.pendingHeat + heat
    ensures !r.2 ==> (r.0.pendingHeat - s.pendingHeat) + r.1 == heat
    ensures StoreInBounds(s) ==> StoreInBounds(r.0)
  {
    var newHeat := s.pendingHeat + heat;
    if newHeat > s.maxHeat then
      (s, s.maxHeat - newHeat + 1, true)
    else if newHeat < 0 then
      (s.(pendingHeat := 0), newHeat, false)
    else
      (s.(pendingHeat := newHeat), 0, false)
  }

  /**
    `Condensator::alterHeat`: absorbs min(heat, capacity - stored) and hands
    back the rest. A negative amount is taken in full, with no floor at zero.
  */
  function AlterCondensator(maxStored: int, stored: int, heat: int): (r: (int, int))
    ensures (r.0 - stored) + r.1 == heat
    ensures stored <= maxStored ==> r.0 <= maxStored
    ensures heat <= maxStored - stored ==> r.0 == stored + heat && r.1 == 0
    ensures heat > maxStored - stored ==> r.0 == maxStored && r.1 == heat - (maxStored - stored)
  {
    var can := maxStored - stored;
    var taken := if can > heat then heat else can;
    (stored + taken, heat - taken)
  }

  /** The result of `alterHeat` on a part: the new part, the heat handed back, and a destruction request. */
  datatype Altered = Altered(part: Part, returned: int, destroy: bool)

  /** Virtual `alterHeat` dispatched over the component classes. */
  function AlterPart(p: Part, heat: int): (r: Altered)
    ensures Parameters(r.part) == Parameters(p) && LastValue(r.part) == LastValue(p)
    ensures StateInBounds(p) ==> StateInBounds(r.part)
    ensures IsHeatable(p) ==> r.returned <= 0
    ensures r.destroy ==> IsHeatable(p) && r.part == p
    ensures !r.destroy ==> (PendingValue(r.part) - PendingValue(p)) + r.returned == heat
  {
    match p
    case Vent(s, d, f) =>
      var (s', ret, over) := AlterStore(s, heat);
      Altered(Vent(s', d, f), ret, over)
    case Exchanger(s, a, c) =>
      var (s', ret, over) := AlterStore(s, heat);
      Altered(Exchanger(s', a, c), ret, over)
    case Coolant(s) =>
      var (s', ret, over) := AlterStore(s, heat);
      Altered(Coolant(s'), ret, over)
    case Condensator(m, l, q) =>
      var (q', ret) := AlterCondensator(m, q, heat);
      Altered(Condensator(m, l, q'), ret, false)
    case _ => Altered(p, heat, false)
  }

  /** The component-level `commit`: last := pending, for the destroyed flag and the part's value. */
  function CommitPart(p: Part): (r: Part)
    ensures Parameters(r) == Parameters(p)
    ensures PendingValue(r) == PendingValue(p) && LastValue(r) == PendingValue(p)
  {
    match p
    case Vent(s, d, f) => Vent(s.(lastHeat := s.pendingHeat), d, f)
    case Exchanger(s, a, c) => Exchanger(s.(lastHeat := s.pendingHeat), a, c)
    case Coolant(s) => Coolant(s.(lastHeat := s.pendingHeat))
    case Condensator(m, _, q) => Condensator(m, q, q)
    case FuelCell(n, _, u, m) => FuelCell(n, u, u, m)
    case Reflector(_, u, m) => Reflector(u, u, m)
    case _ => p
  }

  /** The component-level `rollback`: pending := last. */
  function RollbackPart(p: Part): (r: Part)
    ensures Parameters(r) == Parameters(p)
    ensures LastValue(r) == LastValue(p) && PendingValue(r) == LastValue(p)
  {
    match p
    case Vent(s, d, f) => Vent(s.(pendingHeat := s.lastHeat), d, f)
    case Exchanger(s, a, c) => Exchanger(s.(pendingHeat := s.lastHeat), a, c)
    case Coolant(s) => Coolant(s.(pendingHeat := s.lastHeat))
    case Condensator(m, l, _) => Condensator(m, l, l)
    case FuelCell(n, l, _, m) => FuelCell(n, l, l, m)
    case Reflector(l, _, m) => Reflector(l, l, m)
    case _ => p
  }

  function CommitComponent(c: Component): Component
  {
    c.(lastDestroyed := c.pendingDestroyed, part := CommitPart(c.part))
  }

  function RollbackComponent(c: Component): Component
  {
    c.(pendingDestroyed := c.lastDestroyed, part := RollbackPart(c.part))
  }

  /**
    A rollback right after a commit changes nothing: both copies then hold
    the pending values.
  */
  lemma RollbackAfterCommit(c: Component)
    ensures RollbackComponent(CommitComponent(c)) == CommitComponent(c)
  {
    var p := CommitComponent(c).part;
    PartExtensionality(RollbackPart(p), p);
  }

  /**
    Rollback reads only the committed copy: two components that agree on
    everything but their pending values roll back to the same component.
  */
  lemma RollbackForgetsPending(c: Component, d: Component)
    requires c.(pendingDestroyed := d.pendingDestroyed) == d.(part := c.part)
    requires Parameters(c.part) == Parameters(d.part) && LastValue(c.part) == LastValue(d.part)
    ensures RollbackComponent(c) == RollbackComponent(d)
  {
    PartExtensionality(RollbackPart(c.part), RollbackPart(d.part));
  }

  /**
    `resetUsage`: a condensator empties both copies of its store, fuel cells
    and reflectors zero both copies of their usage; heat stores keep their heat.
  */
  function ResetUsagePart(p: Part): (r: Part)
    ensures Parameters(r) == Parameters(p)
    ensures p.Condensator? || p.FuelCell? || p.Reflector? ==> LastValue(r) == 0 && PendingValue(r) == 0
    ensures !(p.Condensator? || p.FuelCell? || p.Reflector?) ==> r == p
  {
    match p
    case Condensator(m, _, _) => Condensator(m, 0, 0)
    case FuelCell(n, _, _, m) => FuelCell(n, 0, 0, m)
    case Reflector(_, _, m) => Reflector(0, 0, m)
    case _ => p
  }

  /** n(n+1)/2 for n >= 1, 0 otherwise, by its defining recurrence. */
  function Triangular(n: int): int
    decreases if n < 0 then 0 else n
  {
    if n <= 0 then 0 else Triangular(n - 1) + n
  }

  lemma {:induction false} TriangularClosedForm(n: nat)
    ensures 2 * Triangular(n) == n * (n + 1)
  {
    if n > 0 {
      TriangularClosedForm(n - 1);
      assert 2 * Triangular(n) == (n - 1) * n + 2 * n;
    }
  }

  /** `UraniumCell::sumUp`: adds 1..x in a loop. */
  method SumUp(x: int) returns (sum: int)
    ensures sum == Triangular(x)
  {
    sum := 0;
    var i := 1;
    while i <= x
      invariant 1 <= i && (x >= 0 ==> i <= x + 1) && (x < 0 ==> i == 1)
      invariant sum == Triangular(i - 1)
    {
      sum := sum + i;
      i := i + 1;
    }
  }

  /**
    The HEAT-phase heat of one fuel sub-cell: 4 * triangular(pulses), where
    pulses = 1 + numCells/2 plus the neighbours that accepted a pulse.
  */
  function SubCellHeat(numCells: int, accepted: int): int
    requires numCells >= 0 && accepted >= 0
  {
    Triangular(1 + CDiv(numCells, 2) + accepted) * 4
  }

  /** With n = 1 + numCells/2 + accepted pulses, a sub-cell produces 2n(n+1) heat. */
  lemma SubCellHeatClosedForm(numCells: int, accepted: int)
    requires numCells >= 0 && accepted >= 0
    ensures var n := 1 + numCells / 2 + accepted; SubCellHeat(numCells, accepted) == 2 * n * (n + 1)
  {
    var n := 1 + CDiv(numCells, 2) + accepted;
    TriangularClosedForm(n);
    assert SubCellHeat(numCells, accepted) == 2 * (2 * Triangular(n));
  }

  /**
    `getCyclesUntilFailure`: -1 when the capacity is not positive or the heat
    did not grow between the two runs; otherwise (maxHeat - h1 - 1)/(h2 - h1) + 1
    with C++ division.
  */
  function CyclesUntilFailure(firstRunHeat: int, secondRunHeat: int, maxHeat: int): (n: int)
    ensures maxHeat <= 0 || secondRunHeat <= firstRunHeat ==> n == -1
  {
    if maxHeat <= 0 then -1
    else
      var heatDiff := secondRunHeat - firstRunHeat;
      if heatDiff <= 0 then -1
      else CDiv(maxHeat - firstRunHeat - 1, heatDiff) + 1
  }

  /**
    Below capacity, the formula is the first cycle count n >= 1 at which the
    heat, growing by h2 - h1 per cycle from h1, reaches the capacity.
  */
  lemma CyclesIsLeast(h1: int, h2: int, maxHeat: int)
    requires maxHeat > 0 && h2 > h1 && h1 < maxHeat
    ensures var n := CyclesUntilFailure(h1, h2, maxHeat);
      n >= 1 && h1 + n * (h2 - h1) >= maxHeat && h1 + (n - 1) * (h2 - h1) < maxHeat
  {
    var d := h2 - h1;
    var a := maxHeat - h1 - 1;
    var q := a / d;
    var m := a % d;
    assert CDiv(a, d) == q;
    assert a == d * q + m && 0 <= m < d;
    assert q >= 0 by {
      if q < 0 {
        MulNegative(d, q);
      }
    }
    var n := q + 1;
    assert n * d == q * d + d;
    assert CyclesUntilFailure(h1, h2, maxHeat) == n;
  }

  lemma MulNegative(d: int, q: int)
    requires d > 0 && q < 0
    ensures d * q <= -d
  {
    assert d * q == -(d * (-q));
    assert d * (-q) >= d * 1;
  }

  /**
    At exactly full capacity the formula gives 1 cycle, except for a growth
    of 1 per cycle, where C++ truncation makes it 0.
  */
  lemma CyclesAtCapacity(h2: int, maxHeat: int)
    requires maxHeat > 0 && h2 > maxHeat
    ensures CyclesUntilFailure(maxHeat, h2, maxHeat) == if h2 - maxHeat == 1 then 0 else 1
  {
  }
}
