/**
  The `Reactor` object: its grid of component slots, its capacity, flags and
  committed/pending simulation states, updated in place by its methods.
  Each method is proved to leave the object in the state the matching
  function of the value model gives.
*/
module ReactorObject {
  import opened Wrappers
  import opened ReactorTypes
  import opened Components
  import opened ReactorModel
  import opened ReactorTicks
  import opened ReactorRun

  /** The coordinates of cell i of a grid of the given width. */
  lemma CellCoords(i: int, width: int)
    requires 0 <= i < width * GRID_HEIGHT && width > 0
    ensures 0 <= i % width < width && 0 <= i / width < GRID_HEIGHT
    ensures i == (i / width) * width + i % width
  {
  }

  /** Cell y * width + x has column x and row y. */
  lemma CellOf(x: int, y: int, width: int)
    requires 0 <= x < width && 0 <= y
    ensures (y * width + x) % width == x && (y * width + x) / width == y
  {
    var i := y * width + x;
    var q, r := i / width, i % width;
    assert i == q * width + r;
    if q > y {
      MulAtLeast(q - y, width);
    } else if q < y {
      MulAtLeast(y - q, width);
    }
  }

  /** The first cell of row y + 1. */
  lemma NextRow(y: int, width: int)
    ensures (y + 1) * width == y * width + width
  {
  }

  /** Whether `setComponentTypes` has reached cell i when its loops stand at column x, row y. */
  predicate SetBefore(i: int, width: int, x: int, y: int)
    requires width > 0
  {
    i % width < x || (i % width == x && i / width < y)
  }

  class Reactor {
    const width: int
    const height: int
    const numExtraChambers: int
    /** The component slots in row-major order; a destroyed component stays until the next commit. */
    var components: seq<Option<Component>>
    var maxHeat: int
    var ignoreComponentDestroyed: bool
    var numUraniumCells: int
    var usesSingleUseCoolant: bool
    var curSimState: SimulationState
    var pendingSimState: SimulationState

    /** The object's state as a value of the model. */
    function Model(): World
      reads this
    {
      World(width, height, components, maxHeat, ignoreComponentDestroyed,
        numUraniumCells, usesSingleUseCoolant, curSimState, pendingSimState)
    }

    predicate Valid()
      reads this
    {
      ValidWorld(Model())
    }

    /**
      `Reactor(int extraChambers)`: an empty grid of 3 + extraChambers
      columns and 6 rows, and `init()`. The fuel count and coolant flag,
      which the source leaves uninitialised, start at 0 and false.
    */
    constructor(extraChambers: int)
      requires 0 <= extraChambers <= 6
      ensures Valid() && Model() == NewWorld(extraChambers) && numExtraChambers == extraChambers
    {
      height := GRID_HEIGHT;
      width := 3 + extraChambers;
      numExtraChambers := extraChambers;
      ignoreComponentDestroyed := false;
      components := seq((3 + extraChambers) * GRID_HEIGHT, _ => None);
      maxHeat := BASE_MAX_HEAT;
      numUraniumCells := 0;
      usesSingleUseCoolant := false;
      curSimState := DEFAULT_SIMULATION_STATE;
      pendingSimState := DEFAULT_SIMULATION_STATE;
    }

    /**
      The copy constructor: every field copied, and each slot of the other
      grid cloned and appended in order. The coolant flag, which the source
      leaves uninitialised in the copy, is copied too.
    */
    constructor Copy(other: Reactor)
      requires other.Valid()
      ensures Valid() && Model() == other.Model() && numExtraChambers == other.numExtraChambers
    {
      height := other.height;
      width := other.width;
      numExtraChambers := other.numExtraChambers;
      numUraniumCells := other.numUraniumCells;
      usesSingleUseCoolant := other.usesSingleUseCoolant;
      curSimState := other.curSimState;
      pendingSimState := other.pendingSimState;
      maxHeat := other.maxHeat;
      ignoreComponentDestroyed := other.ignoreComponentDestroyed;
      components := [];
      new;
      var k := 0;
      while k < |other.components|
        invariant 0 <= k <= |other.components|
        invariant other.Model() == old(other.Model())
        invariant Model() == other.Model().(cells := components)
        invariant components == other.components[..k]
      {
        components := components + [other.components[k]];
        k := k + 1;
      }
      assert other.components == other.components[..k];
    }

    /** `Reactor::get`: the live component at (x, y), as its cell index. */
    method Get(x: int, y: int) returns (r: Option<nat>)
      requires Valid()
      ensures r == ReactorModel.Get(Model(), x, y)
    {
      if x < 0 || y < 0 || x >= width || y >= height {
        return None;
      }
      IndexBounds(x, y, width, height);
      var ptr := components[y * width + x];
      if ptr.None? {
        return None;
      }
      if ptr.value.pendingDestroyed {
        return None;
      }
      return Some(y * width + x);
    }

    /** `Reactor::set(x, y, type)`: a fresh component of that kind at (x, y). */
    method Set(x: int, y: int, t: ComponentType)
      requires Valid() && 0 <= x < width && 0 <= y < height
      modifies this
      ensures Valid()
      ensures Model() == old(Model()).(cells := old(components)[y * width + x := Create(t, x, y)])
    {
      IndexBounds(x, y, width, height);
      components := components[y * width + x := Create(t, x, y)];
    }

    /** `Reactor::getComponentTypes`. */
    method GetComponentTypes() returns (ret: seq<ComponentType>)
      requires Valid()
      ensures ret == GetComponentTypesF(Model())
    {
      ret := [];
      var k := 0;
      while k < |components|
        invariant 0 <= k <= |components|
        invariant ret == GetComponentTypesF(Model())[..k]
      {
        if components[k].None? {
          ret := ret + [ComponentNone];
        } else {
          ret := ret + [components[k].value.kind];
        }
        k := k + 1;
      }
    }

    /** `Reactor::setComponentTypes`: column by column, each column top to bottom. */
    method SetComponentTypes(types: seq<ComponentType>)
      requires Valid() && |types| >= |components|
      modifies this
      ensures Valid() && Model() == SetComponentTypesF(old(Model()), types)
    {
      var x := 0;
      while x < width
        invariant 0 <= x <= width && Valid() && Model() == old(Model()).(cells := components)
        invariant forall i :: 0 <= i < |components| ==>
          components[i] == if SetBefore(i, width, x, 0) then Create(types[i], i % width, i / width) else old(components[i])
      {
        var y := 0;
        while y < height
          invariant 0 <= y <= height && Valid() && Model() == old(Model()).(cells := components)
          invariant forall i :: 0 <= i < |components| ==>
            components[i] == if SetBefore(i, width, x, y) then Create(types[i], i % width, i / width) else old(components[i])
        {
          IndexBounds(x, y, width, height);
          CellOf(x, y, width);
          Set(x, y, types[y * width + x]);
          forall i | 0 <= i < |components|
            ensures SetBefore(i, width, x, y + 1) <==> SetBefore(i, width, x, y) || i == y * width + x
          {
            CellCoords(i, width);
          }
          y := y + 1;
        }
        forall i | 0 <= i < |components|
          ensures SetBefore(i, width, x + 1, 0) <==> SetBefore(i, width, x, height)
        {
          CellCoords(i, width);
        }
        x := x + 1;
      }
    }

    /** `Reactor::heatCapacityExceeded`. */
    method HeatCapacityExceeded()
      modifies this
      ensures Model() == old(Model()).(pending := old(pendingSimState).(meltdown := true))
    {
      pendingSimState := pendingSimState.(meltdown := true);
    }

    /** `Reactor::setHeat`. */
    method SetHeat(heat: int)
      requires Valid()
      modifies this
      ensures Valid() && Model() == ReactorModel.SetHeat(old(Model()), heat)
    {
      pendingSimState := pendingSimState.(reactorHeat := heat);
      if pendingSimState.reactorHeat >= maxHeat {
        HeatCapacityExceeded();
      }
    }

    /** `Reactor::addHeat`: returns the new core heat. */
    method AddHeat(heat: int) returns (r: int)
      requires Valid()
      modifies this
      ensures Valid() && Model() == ReactorModel.AddHeat(old(Model()), heat)
      ensures r == old(pendingSimState.reactorHeat) + heat
    {
      pendingSimState := pendingSimState.(reactorHeat := pendingSimState.reactorHeat + heat);
      if pendingSimState.reactorHeat >= maxHeat {
        HeatCapacityExceeded();
      }
      r := pendingSimState.reactorHeat;
    }

    /** `Reactor::generateEU`. */
    method GenerateEU(eu: int)
      requires Valid()
      modifies this
      ensures Valid() && Model() == ReactorModel.GenerateEU(old(Model()), eu)
    {
      pendingSimState := pendingSimState.(euGenerated := pendingSimState.euGenerated + eu);
    }

    /** `Reactor::componentDestroyed`. */
    method ComponentDestroyed()
      modifies this
      ensures Model() == ReactorModel.ComponentDestroyed(old(Model()))
    {
      if !ignoreComponentDestroyed {
        pendingSimState := pendingSimState.(componentFailed := true);
      }
    }

    /** `ReactorComponent::setDestroyed` of the component in cell i. */
    method SetDestroyed(i: int, d: bool)
      requires 0 <= i < |components| && components[i].Some?
      modifies this
      ensures Model() == ReactorModel.SetDestroyed(old(Model()), i, d)
    {
      if ignoreComponentDestroyed {
        return;
      }
      var c := components[i].value;
      var wasDestroyed := c.pendingDestroyed;
      components := components[i := Some(c.(pendingDestroyed := d))];
      if d && !wasDestroyed {
        ComponentDestroyed();
      }
    }

    /**
      `Reactor::commit`: the pending state becomes the committed one; each
      component commits and a destroyed one is released.
    */
    method Commit()
      requires Valid()
      modifies this
      ensures Valid() && Model() == CommitF(old(Model()))
    {
      curSimState := pendingSimState;
      var k := 0;
      while k < |components|
        invariant 0 <= k <= |components| == |old(components)|
        invariant forall j :: 0 <= j < |components| ==>
          components[j] == if j < k then CommitCell(old(components)[j]) else old(components)[j]
        invariant Model() == old(Model()).(cur := old(pendingSimState), cells := components)
      {
        if components[k].Some? {
          var c := CommitComponent(components[k].value);
          components := components[k := Some(c)];
          if c.pendingDestroyed {
            components := components[k := None];
          }
        }
        k := k + 1;
      }
      assert components == CommitF(old(Model())).cells;
    }

    /** `Reactor::rollback`: the committed state is copied back, for the reactor and every component. */
    method Rollback()
      requires Valid()
      modifies this
      ensures Valid() && Model() == RollbackF(old(Model()))
    {
      pendingSimState := curSimState;
      var k := 0;
      while k < |components|
        invariant 0 <= k <= |components| == |old(components)|
        invariant forall j :: 0 <= j < |components| ==>
          components[j] == if j < k then RollbackCell(old(components)[j]) else old(components)[j]
        invariant Model() == old(Model()).(pending := old(curSimState), cells := components)
      {
        if components[k].Some? {
          components := components[k := Some(RollbackComponent(components[k].value))];
        }
        k := k + 1;
      }
      assert components == RollbackF(old(Model())).cells;
    }

    /** `Reactor::removeFuel`: every fuel cell leaves the grid. */
    method RemoveFuel()
      requires Valid()
      modifies this
      ensures Valid() && Model() == RemoveFuelF(old(Model()))
    {
      var k := 0;
      while k < |components|
        invariant 0 <= k <= |components| == |old(components)|
        invariant forall j :: 0 <= j < |components| ==>
          components[j] == if j < k && old(components)[j].Some? && IsFuel(old(components)[j].value.kind) then None else old(components)[j]
        invariant Model() == old(Model()).(cells := components)
      {
        if components[k].Some? {
          var t := components[k].value.kind;
          if t == UraniumCell || t == DualUraniumCell || t == QuadUraniumCell {
            components := components[k := None];
          }
        }
        k := k + 1;
      }
      assert components == RemoveFuelF(old(Model())).cells;
    }

    /** `Reactor::getTotalCost`: every component costs 2, so the total is twice their number. */
    method GetTotalCost() returns (total: int)
      requires Valid()
      ensures total == CostSum(components) && total == 2 * PresentCount(components)
    {
      total := 0;
      var k := 0;
      while k < |components|
        invariant 0 <= k <= |components|
        invariant total == CostSum(components[..k])
      {
        assert components[..k + 1][..k] == components[..k];
        if components[k].Some? {
          total := total + components[k].value.cost;
        }
        k := k + 1;
      }
      assert components[..k] == components;
      CostIsTwicePresent(components);
    }

    /**
      `Reactor::initializeSimulation`: both states reset, then the uranium
      cells counted (1, 2 or 4 per fuel component) and condensators detected.
      The components' own `init` does nothing.
    */
    method InitializeSimulation()
      requires Valid()
      modifies this
      ensures Valid() && Model() == InitializeF(old(Model()))
    {
      curSimState := DEFAULT_SIMULATION_STATE;
      pendingSimState := DEFAULT_SIMULATION_STATE;
      numUraniumCells := 0;
      usesSingleUseCoolant := false;
      var k := 0;
      while k < |components|
        invariant 0 <= k <= |components| && components == old(components)
        invariant numUraniumCells == UraniumCount(components[..k])
        invariant usesSingleUseCoolant == HasCondensator(components[..k])
        invariant Model() == old(Model()).(cur := DEFAULT_SIMULATION_STATE, pending := DEFAULT_SIMULATION_STATE,
          numUraniumCells := numUraniumCells, usesSingleUseCoolant := usesSingleUseCoolant)
      {
        CountsStep(components, k);
        if components[k].Some? {
          var t := components[k].value.kind;
          if t == UraniumCell {
            numUraniumCells := numUraniumCells + 1;
          } else if t == DualUraniumCell {
            numUraniumCells := numUraniumCells + 2;
          } else if t == QuadUraniumCell {
            numUraniumCells := numUraniumCells + 4;
          } else if t == CondensatorRsh {
            usesSingleUseCoolant := true;
          } else if t == CondensatorLzh {
            usesSingleUseCoolant := true;
          }
        }
        k := k + 1;
      }
      assert components[..k] == components;
    }

    /**
      `Reactor::resetUsage`: usage counters and condensators restart at 0;
      the committed tick and EU restart at 0 and become the pending state.
    */
    method ResetUsage()
      requires Valid()
      modifies this
      ensures Valid() && Model() == ResetUsageF(old(Model()))
    {
      var k := 0;
      while k < |components|
        invariant 0 <= k <= |components| == |old(components)|
        invariant forall j :: 0 <= j < |components| ==>
          components[j] == if j < k then ResetUsageCell(old(components)[j]) else old(components)[j]
        invariant Model() == old(Model()).(cells := components)
      {
        if components[k].Some? {
          var c := components[k].value;
          components := components[k := Some(c.(part := ResetUsagePart(c.part)))];
        }
        k := k + 1;
      }
      curSimState := curSimState.(curTick := 0, euGenerated := 0);
      pendingSimState := curSimState;
      assert components == ResetUsageF(old(Model())).cells;
    }

    // ----- Component behaviour, on the component in cell i -----

    /**
      Virtual `alterHeat` of the component in cell i: the new pending value
      is written back, and an overflowing heat store is destroyed instead.
    */
    method AlterHeatAt(i: int, heat: int) returns (ret: int)
      requires Valid() && 0 <= i < |components| && components[i].Some?
      modifies this
      ensures Valid() && Model() == ReactorModel.AlterHeatAt(old(Model()), i, heat).0
      ensures ret == ReactorModel.AlterHeatAt(old(Model()), i, heat).1
    {
      var c := components[i].value;
      assert ValidComponent(c);
      var a := AlterPart(c.part, heat);
      components := components[i := Some(c.(part := a.part))];
      if a.destroy {
        SetDestroyed(i, true);
      }
      ret := a.returned;
    }

    /** Virtual `acceptUraniumPulse` of the component in cell i. */
    method AcceptPulseAt(i: int, phase: SimPhase) returns (ok: bool)
      requires Valid() && 0 <= i < |components| && components[i].Some?
      modifies this
      ensures Valid() && Model() == ReactorModel.AcceptPulseAt(old(Model()), i, phase).0
      ensures ok == ReactorModel.AcceptPulseAt(old(Model()), i, phase).1
    {
      var c := components[i].value;
      assert ValidComponent(c);
      match c.part
      case FuelCell(_, _, u, m) =>
        if u <= m {
          if phase == PhasePower {
            GenerateEU(EU_PER_PULSE);
          }
          return true;
        } else {
          return false;
        }
      case Reflector(l, u, m) =>
        if phase == PhasePower {
          GenerateEU(EU_PER_PULSE);
        } else {
          components := components[i := Some(c.(part := Reflector(l, u + 1, m)))];
          if u + 1 > m {
            SetDestroyed(i, true);
          }
        }
        return true;
      case _ =>
        return false;
    }

    /** `HeatVent::tick`. */
    method VentTick(i: int, phase: SimPhase)
      requires Holds(Model(), i) && components[i].value.part.Vent?
      modifies this
      ensures Valid() && Model() == ReactorTicks.VentTick(old(Model()), i, phase)
    {
      if phase == PhaseHeatRun {
        hide ReactorModel.AlterHeatAt, ReactorModel.SetHeat, Evolves, FuelCellsKept, ValidCells, CellsKeptOutside;
        ghost var w := Model();
        var v := components[i].value.part;
        if v.heatFromReactor > 0 {
          var rh := pendingSimState.reactorHeat;
          var rdrain := rh;
          if rdrain > v.heatFromReactor {
            rdrain := v.heatFromReactor;
          }
          rh := rh - rdrain;
          ghost var d := rdrain;
          rdrain := AlterHeatAt(i, rdrain);
          if rdrain > 0 {
            return;
          }
          SetHeat(rh);
          assert Model() == ReactorModel.SetHeat(ReactorModel.AlterHeatAt(w, i, d).0, rh);
        }
        var _ := AlterHeatAt(i, -v.heatDissipated);
      }
    }

    /** `ComponentHeatVent::checkDissipate`. */
    method CheckDissipate(o: Option<nat>, amount: int)
      requires Valid() && (o.Some? ==> Live(Model(), o.value))
      modifies this
      ensures Valid() && Model() == ReactorTicks.CheckDissipate(old(Model()), o, amount)
    {
      if o.None? {
        return;
      }
      if CanStoreHeat(components[o.value].value) {
        var _ := AlterHeatAt(o.value, -amount);
      }
    }

    /** `ComponentHeatVent::tick`. */
    method SpreadVentTick(i: int, phase: SimPhase)
      requires Holds(Model(), i) && components[i].value.part.SpreadVent?
      modifies this
      ensures Valid() && Model() == ReactorTicks.SpreadVentTick(old(Model()), i, phase)
    {
      if phase == PhaseHeatRun {
        hide ReactorTicks.CheckDissipate, Evolves, FuelCellsKept, ReactorTicks.VentedAround;
        ghost var w := Model();
        var c := components[i].value;
        var e := c.part.heatFromEach;
        assert ValidComponent(c);
        ParameterFacts(c);
        var o := Get(c.x - 1, c.y);
        CheckDissipate(o, e);
        o := Get(c.x + 1, c.y);
        CheckDissipate(o, e);
        assert Model() == ReactorTicks.DissipateSides(w, c, e);
        ghost var w2 := Model();
        o := Get(c.x, c.y - 1);
        CheckDissipate(o, e);
        o := Get(c.x, c.y + 1);
        CheckDissipate(o, e);
        assert Model() == ReactorTicks.DissipateEnds(w2, c, e);
      }
    }

    /** `ReactorPlating::tick`: the plating raises the capacity for this tick. */
    method PlatingTick(i: int, phase: SimPhase)
      requires Holds(Model(), i) && components[i].value.part.Plating?
      modifies this
      ensures Valid() && Model() == ReactorTicks.PlatingTick(old(Model()), i, phase)
    {
      if phase == PhaseHeatRun {
        assert ValidComponent(components[i].value);
        maxHeat := maxHeat + components[i].value.part.heatAddition;
      }
    }

    /** The exchanger's loop over its acceptors, as `Transfers` describes it. */
    method TransferToAdjacent(acc: seq<nat>, med: real, rate: int) returns (myHeat: int)
      requires Valid() && Present(Model(), acc) && rate >= 0
      modifies this
      ensures var f := Transfers(old(Model()), acc, med, rate);
        Model() == f.world && myHeat == f.heat
    {
      hide CellsKeptOutside, Indices;
      ghost var w := Model();
      myHeat := 0;
      var k := 0;
      while k < |acc|
        invariant 0 <= k <= |acc|
        invariant Model() == Transfers(w, acc[..k], med, rate).world
        invariant myHeat == Transfers(w, acc[..k], med, rate).heat
      {
        assert acc[..k + 1][..k] == acc[..k];
        EvolvesAt(w, Model(), acc[k]);
        var comp := components[acc[k]].value;
        var add := Share(med, MaxHeatOf(comp), CurrentHeat(comp), rate);
        var ret := AlterHeatAt(acc[k], add);
        myHeat := myHeat - add + ret;
        k := k + 1;
      }
      assert acc[..k] == acc;
    }

    /** The first half of `HeatExchanger::tick`: the transfers to the acceptors, as `AdjacentFlow` describes them. */
    method ExchangeWithAdjacent(i: int) returns (myHeat: int)
      requires Holds(Model(), i) && components[i].value.part.Exchanger?
      modifies this
      ensures Model() == AdjacentFlow(old(Model()), i).world && myHeat == AdjacentFlow(old(Model()), i).heat
    {
      var x := components[i].value.part;
      assert ValidComponent(components[i].value);
      myHeat := 0;
      if x.transferToAdjacent > 0 {
        myHeat := TransferToAdjacent(ExchangeAcceptors(Model(), i), Medium(Model(), i), x.transferToAdjacent);
      }
    }

    /** `HeatExchanger::tick`. */
    method ExchangerTick(i: int)
      requires Holds(Model(), i) && components[i].value.part.Exchanger?
      modifies this
      ensures Valid() && Model() == ReactorTicks.ExchangerTick(old(Model()), i)
    {
      hide ReactorModel.AlterHeatAt, ReactorModel.SetHeat, Evolves, FuelCellsKept, AdjacentFlow;
      ghost var w := Model();
      var core := components[i].value.part.transferToCore;
      var med := Medium(Model(), i);
      var myHeat := ExchangeWithAdjacent(i);
      if core > 0 {
        var add := Share(med, maxHeat, pendingSimState.reactorHeat, core);
        myHeat := myHeat - add;
        SetHeat(pendingSimState.reactorHeat + add);
      }
      assert Model() == ExchangerPlan(w, i).world && myHeat == ExchangerPlan(w, i).myHeat;
      HoldsKept(w, Model(), i);
      var _ := AlterHeatAt(i, myHeat);
    }

    /** `UraniumCell::checkPulseable`: 1 when the live component o, if any, accepts a pulse. */
    method CheckPulseable(o: Option<nat>, phase: SimPhase) returns (n: int)
      requires Valid() && (o.Some? ==> Live(Model(), o.value))
      modifies this
      ensures Valid()
      ensures Model() == ReactorTicks.CheckPulseable(old(Model()), o, phase).0
      ensures n == ReactorTicks.CheckPulseable(old(Model()), o, phase).1
    {
      n := 0;
      if o.Some? {
        var ok := AcceptPulseAt(o.value, phase);
        if ok {
          n := 1;
        }
      }
    }

    /** A sub-cell's `checkPulseable` calls on the left and right neighbours of c. */
    method SidePulses(c: Component, phase: SimPhase) returns (accepted: int)
      requires Valid()
      modifies this
      ensures Valid()
      ensures Model() == ReactorTicks.SidePulses(old(Model()), c, phase).0
      ensures accepted == ReactorTicks.SidePulses(old(Model()), c, phase).1
    {
      ghost var w := Model();
      var o := Get(c.x - 1, c.y);
      assert o == Left(w, c);
      accepted := CheckPulseable(o, phase);
      ghost var w1 := Model();
      o := Get(c.x + 1, c.y);
      assert o == Right(w1, c);
      var n := CheckPulseable(o, phase);
      accepted := accepted + n;
    }

    /** A sub-cell's `checkPulseable` calls on the neighbours above and below c. */
    method EndPulses(c: Component, phase: SimPhase) returns (accepted: int)
      requires Valid()
      modifies this
      ensures Valid()
      ensures Model() == ReactorTicks.EndPulses(old(Model()), c, phase).0
      ensures accepted == ReactorTicks.EndPulses(old(Model()), c, phase).1
    {
      ghost var w := Model();
      var o := Get(c.x, c.y - 1);
      assert o == Above(w, c);
      accepted := CheckPulseable(o, phase);
      ghost var w1 := Model();
      o := Get(c.x, c.y + 1);
      assert o == Below(w1, c);
      var n := CheckPulseable(o, phase);
      accepted := accepted + n;
    }

    /** The four `checkPulseable` calls of a sub-cell; returns how many neighbours accepted. */
    method NeighbourPulses(c: Component, phase: SimPhase) returns (accepted: int)
      requires Valid()
      modifies this
      ensures Valid()
      ensures Model() == ReactorTicks.NeighbourPulses(old(Model()), c, phase).0
      ensures accepted == ReactorTicks.NeighbourPulses(old(Model()), c, phase).1
    {
      accepted := SidePulses(c, phase);
      var n := EndPulses(c, phase);
      accepted := accepted + n;
    }

    /** The POWER-phase loop in which the fuel cell in cell i pulses itself. */
    method PulseSelf(i: int, phase: SimPhase, pulses: nat)
      requires FuelAt(Model(), i)
      modifies this
      ensures Model() == SelfPulses(old(Model()), i, phase, pulses)
    {
      ghost var w := Model();
      var k := 0;
      while k < pulses
        invariant 0 <= k <= pulses
        invariant Model() == SelfPulses(w, i, phase, k)
      {
        var _ := AcceptPulseAt(i, phase);
        k := k + 1;
      }
    }

    /** The split loop of `UraniumCell::tick`, as `SplitHeat` describes it; returns what is left. */
    method SplitHeatOver(acc: seq<nat>, heat0: int) returns (heat: int)
      requires Valid() && Present(Model(), acc)
      modifies this
      ensures var f := SplitHeat(old(Model()), acc, heat0, |acc|);
        Model() == f.world && heat == f.heat
    {
      ghost var w := Model();
      heat := heat0;
      var k := 0;
      while k < |acc|
        invariant 0 <= k <= |acc|
        invariant Model() == SplitHeat(w, acc, heat0, k).world
        invariant heat == SplitHeat(w, acc, heat0, k).heat
      {
        ghost var p := SplitHeat(w, acc, heat0, k);
        EvolvesAt(w, Model(), acc[k]);
        var dheat := CDiv(heat, |acc| - k);
        heat := heat - dheat;
        var ret := AlterHeatAt(acc[k], dheat);
        heat := heat + ret;
        assert SplitHeat(w, acc, heat0, k + 1) == Flow(Model(), heat, p.sent + [dheat], p.returned + [ret]);
        k := k + 1;
      }
    }

    /** A sub-cell of `UraniumCell::tick` in the POWER phase. */
    method PowerSubCell(i: int, phase: SimPhase)
      requires FuelAt(Model(), i)
      modifies this
      ensures Valid() && Model() == ReactorTicks.PowerSubCell(old(Model()), i, phase)
    {
      var c := components[i].value;
      assert ValidComponent(c);
      ParameterFacts(c);
      var pulses := 1 + CDiv(c.part.numCells, 2);
      PulseSelf(i, phase, pulses);
      ghost var w1 := Model();
      var _ := NeighbourPulses(c, phase);
      assert Model() == ReactorTicks.NeighbourPulses(w1, c, phase).0;
    }

    /** A HEAT-phase sub-cell of `UraniumCell::tick` up to its last line; returns the heat left over. */
    method HeatSplit(i: int) returns (heat: int)
      requires FuelAt(Model(), i)
      modifies this
      ensures Model() == ReactorTicks.HeatSplit(old(Model()), i).world
      ensures heat == ReactorTicks.HeatSplit(old(Model()), i).heat
    {
      hide ReactorTicks.NeighbourPulses, ReactorTicks.PulsesEffect, SplitHeat, ReactorTicks.SubCellOutput;
      ghost var w := Model();
      var c := components[i].value;
      assert ValidComponent(c);
      ParameterFacts(c);
      var pulses := 1 + CDiv(c.part.numCells, 2);
      var accepted := NeighbourPulses(c, PhaseHeatRun);
      ghost var n := ReactorTicks.NeighbourPulses(w, c, PhaseHeatRun);
      assert Model() == n.0 && accepted == n.1;
      pulses := pulses + accepted;
      heat := SumUp(pulses);
      heat := heat * 4;
      assert heat == SubCellHeat(c.part.numCells, n.1);
      var acc := HeatAcceptors(Model(), c);
      heat := SplitHeatOver(acc, heat);
    }

    /** A sub-cell of `UraniumCell::tick` in the HEAT phase. */
    method HeatSubCell(i: int)
      requires FuelAt(Model(), i)
      modifies this
      ensures Valid() && Model() == ReactorTicks.HeatSubCell(old(Model()), i)
    {
      var heat := HeatSplit(i);
      if heat > 0 {
        var _ := AddHeat(heat);
      }
    }

    /** One pass of the `cellNum` loop of `UraniumCell::tick`. */
    method SubCell(i: int, phase: SimPhase)
      requires FuelAt(Model(), i)
      modifies this
      ensures Valid() && Model() == ReactorTicks.SubCell(old(Model()), i, phase)
    {
      if phase != PhaseHeatRun {
        PowerSubCell(i, phase);
      } else {
        HeatSubCell(i);
      }
    }

    /** The `cellNum` loop of `UraniumCell::tick`: n sub-cells. */
    method SubCells(i: int, phase: SimPhase, n: nat)
      requires FuelAt(Model(), i)
      modifies this
      ensures Valid() && Model() == ReactorTicks.SubCells(old(Model()), i, phase, n)
    {
      // each pass is related to the next by SubCellsStep; what one pass does is not needed here
      hide ReactorTicks.SubCell;
      ghost var w := Model();
      var cellNum := 0;
      while cellNum < n
        invariant 0 <= cellNum <= n
        invariant Model() == ReactorTicks.SubCells(w, i, phase, cellNum)
      {
        SubCellsStep(w, i, phase, cellNum);
        SubCell(i, phase);
        cellNum := cellNum + 1;
      }
    }

    /** `pendingUsage++` of the fuel cell in cell i. */
    method UseFuel(i: int)
      requires FuelAt(Model(), i)
      modifies this
      ensures Valid() && Model() == ReactorTicks.UseFuel(old(Model()), i)
    {
      var c := components[i].value;
      assert ValidComponent(c);
      components := components[i := Some(c.(part := FuelCell(c.part.numCells, c.part.lastUsage, c.part.pendingUsage + 1, c.part.maxUsage)))];
    }

    /** `UraniumCell::tick`. */
    method FuelCellTick(i: int, phase: SimPhase)
      requires FuelAt(Model(), i)
      modifies this
      ensures Valid() && Model() == ReactorTicks.FuelCellTick(old(Model()), i, phase)
    {
      hide ReactorTicks.SubCells, ReactorTicks.SubCell;
      ghost var w := Model();
      var c := components[i].value;
      FuelCellSize(c);
      if c.part.pendingUsage <= c.part.maxUsage {
        SubCells(i, phase, c.part.numCells);
        if phase == PhaseHeatRun {
          UseFuel(i);
        }
      }
    }

    /** `ReactorComponent::tick`, dispatched on the kind of component in cell i. */
    method TickComponent(i: int, phase: SimPhase)
      requires Holds(Model(), i)
      modifies this
      ensures Valid() && Model() == ReactorTicks.TickComponent(old(Model()), i, phase)
    {
      match components[i].value.part
      case Vent(_, _, _) => VentTick(i, phase);
      case SpreadVent(_) => SpreadVentTick(i, phase);
      case Exchanger(_, _, _) => ExchangerTick(i);
      case FuelCell(_, _, _, _) => FuelCellTick(i, phase);
      case Plating(_) => PlatingTick(i, phase);
      case _ =>
    }

    /** The body of the `runTickPhase` loops at column x, row y: the live component there ticks. */
    method TickCell(x: int, y: int, phase: SimPhase)
      requires Valid() && 0 <= x < width && 0 <= y < height
      modifies this
      ensures Valid() && Model() == TickAt(old(Model()), y * width + x, phase)
    {
      ghost var w := Model();
      ghost var k := y * width + x;
      IndexBounds(x, y, width, height);
      var o := Get(x, y);
      if o.Some? {
        TickComponent(o.value, phase);
      } else {
        assert !Live(w, k);
      }
    }

    /**
      The inner loop of `Reactor::runTickPhase`: the live components of row
      y tick left to right; the trace t0 of the cells before the row grows
      by one world per column.
    */
    method RunRow(y: int, phase: SimPhase, ghost w0: World, ghost t0: seq<World>) returns (ghost t: seq<World>)
      requires Valid() && 0 <= y < height
      requires PhaseTrace(w0, phase, t0) && |t0| == y * width + 1 && Model() == t0[|t0| - 1]
      modifies this
      ensures Valid() && PhaseTrace(w0, phase, t) && |t| == |t0| + width && Model() == t[|t| - 1]
    {
      t := t0;
      var x := 0;
      while x < width
        invariant 0 <= x <= width && Valid()
        invariant PhaseTrace(w0, phase, t) && |t| == y * width + x + 1 && Model() == t[|t| - 1]
      {
        hide TickAt, PhaseTrace;
        TickCell(x, y, phase);
        TraceSnoc(w0, phase, t, Model());
        t := t + [Model()];
        x := x + 1;
      }
    }

    /** `Reactor::runTickPhase`: every live component ticks, row by row, column by column. */
    method RunTickPhase(phase: SimPhase)
      requires Valid()
      modifies this
      ensures Valid() && Model() == PhaseUpTo(old(Model()), phase, |old(Model()).cells|)
    {
      ghost var w0 := Model();
      ghost var t := [w0];
      assert PhaseTrace(w0, phase, t);
      hide TickAt, PhaseTrace, PhaseUpTo;
      var y := 0;
      while y < height
        invariant 0 <= y <= height && Valid()
        invariant PhaseTrace(w0, phase, t) && |t| == y * width + 1 && Model() == t[|t| - 1]
      {
        t := RunRow(y, phase, w0, t);
        NextRow(y, width);
        y := y + 1;
      }
      ghost var n := |t| - 1;
      assert n == |w0.cells| by {
        assert y == GRID_HEIGHT && width == w0.width;
        assert |w0.cells| == w0.width * GRID_HEIGHT;
      }
      PhaseTraceUpTo(w0, phase, t);
      assert Model() == PhaseUpTo(w0, phase, n);
    }

    /** The heat sum at the end of `Reactor::runTick`: core heat plus every present component's heat. */
    method TotalHeat() returns (total: int)
      requires Valid()
      ensures total == pendingSimState.reactorHeat + HeatSum(components)
    {
      total := pendingSimState.reactorHeat;
      var k := 0;
      while k < |components|
        invariant 0 <= k <= |components|
        invariant total == pendingSimState.reactorHeat + HeatSum(components[..k])
      {
        assert components[..k + 1][..k] == components[..k];
        if components[k].Some? {
          total := total + CurrentHeat(components[k].value);
        }
        k := k + 1;
      }
      assert components[..k] == components;
    }

    /** `Reactor::runTick`. */
    method RunTick()
      requires Valid()
      modifies this
      ensures Valid() && Model() == RunTickF(old(Model()))
    {
      ghost var w := Model();
      maxHeat := BASE_MAX_HEAT;
      RunTickPhase(PhaseHeatRun);
      ghost var w2 := Model();
      RunTickPhase(PhasePower);
      ghost var w3 := Model();
      var total := TotalHeat();
      pendingSimState := pendingSimState.(totalHeat := total);
      RunTickSteps(w, w2, w3);
    }

    /** The tail of the `runUntil` loop body: commit unless on the first iteration, one tick, `pendingSimState.curTick++`. */
    method Advance(first: bool)
      requires Valid()
      modifies this
      ensures Valid() && Model() == ReactorRun.Advance(old(Model()), first)
    {
      if !first {
        Commit();
      }
      RunTick();
      pendingSimState := pendingSimState.(curTick := pendingSimState.curTick + 1);
    }

    /** The six checks at the head of the `runUntil` loop, first match wins. */
    method Checks(f: StopFlags) returns (stop: Option<StopReason>)
      ensures stop == ReactorRun.Checks(Model(), f)
    {
      if pendingSimState.meltdown && f.onMeltdown {
        return Some(StoppedOnMeltdown);
      }
      if pendingSimState.componentFailed && f.onComponentFailed {
        return Some(StoppedOnComponentFailed);
      }
      if pendingSimState.curTick >= FUEL_TICKS && f.onFuelUsed {
        return Some(StoppedOnFuelUsed);
      }
      if pendingSimState.totalHeat <= 0 && f.onCooledDown {
        return Some(StoppedOnCooledDown);
      }
      if pendingSimState.totalHeat < 100 && pendingSimState.totalHeat == curSimState.totalHeat && f.onCooledDown {
        return Some(StoppedOnCooledDown);
      }
      if pendingSimState.curTick >= TIMEOUT_TICKS {
        return Some(StoppedOnMaxTicks);
      }
      return None;
    }

    /**
      `Reactor::runUntil`: the stop checks in their fixed order, then the
      stagnation probe, then one more tick; the object is left as the loop
      leaves it.
    */
    method RunUntil(f: StopFlags) returns (reason: StopReason)
      requires Valid()
      modifies this
      ensures Valid() && Run(Model(), reason) == RunUntilF(old(Model()), f)
    {
      ghost var w0 := Model();
      var first := true;
      var last := -1;
      while true
        invariant Valid() && RunLoop(Model(), f, first, last) == RunUntilF(w0, f)
        decreases TIMEOUT_TICKS - pendingSimState.curTick
      {
        var stop := Checks(f);
        if stop.Some? {
          return stop.value;
        }
        if CMod(curSimState.curTick, NO_HEAT_LOSS_CHECK_INTERVAL) == 0 && f.onCooledDown {
          if last == -1 {
            last := curSimState.totalHeat;
          } else {
            if last <= curSimState.totalHeat {
              return StoppedOnMaxTicks;
            }
            last := curSimState.totalHeat;
          }
        }
        Advance(first);
        first := false;
      }
    }
  }

}
