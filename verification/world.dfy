/**
  The reactor as a value: grid size, the cells of the component vector, the
  heat capacity, the destruction switch, the fuel/coolant summary and the
  committed/pending simulation states. Every `Reactor` member that changes
  state has a function here giving the new value; the `Reactor` class
  is proved against them.
*/
module ReactorModel {
  import opened Wrappers
  import opened ReactorTypes
  import opened Components

  datatype World = World(
    width: int,
    height: int,
    cells: seq<Option<Component>>,
    maxHeat: int,
    ignoreComponentDestroyed: bool,
    numUraniumCells: int,
    usesSingleUseCoolant: bool,
    cur: SimulationState,
    pending: SimulationState)

  predicate ValidCells(cells: seq<Option<Component>>)
  {
    forall i {:trigger ValidComponent(cells[i].value)} :: 0 <= i < |cells| && cells[i].Some? ==> ValidComponent(cells[i].value)
  }

  /** The representation invariant: six rows of 3..9 cells, a positive capacity, components as built. */
  predicate ValidWorld(w: World)
  {
    w.height == GRID_HEIGHT && 3 <= w.width <= 9 && |w.cells| == w.width * GRID_HEIGHT
    && w.maxHeat > 0 && ValidCells(w.cells)
  }

  /** A cell holding a component that is not (pending) destroyed. */
  predicate Live(w: World, i: int)
  {
    0 <= i < |w.cells| && w.cells[i].Some? && !w.cells[i].value.pendingDestroyed
  }

  lemma {:induction false} MulNonneg(a: int, b: int)
    requires a >= 0 && b >= 0
    ensures a * b >= 0
    decreases a
  {
    if a > 0 {
      MulNonneg(a - 1, b);
      assert a * b == (a - 1) * b + b;
    }
  }

  lemma MulAtLeast(d: int, w: int)
    requires d >= 1 && w > 0
    ensures d * w >= w
  {
    var e := d - 1;
    assert d * w == e * w + w;
  }

  lemma IndexBounds(x: int, y: int, width: int, height: int)
    requires 0 <= x < width && 0 <= y < height
    ensures 0 <= y * width + x < width * height
  {
    MulNonneg(y, width);
    MulNonneg(height - y - 1, width);
    assert (height - y - 1) * width == height * width - y * width - width;
  }

  /**
    `Reactor::get`: the index of the live component at (x, y); none for a
    position outside the grid, an empty cell or a destroyed component.
  */
  function Get(w: World, x: int, y: int): (r: Option<nat>)
    requires ValidWorld(w)
    ensures r.Some? <==> 0 <= x < w.width && 0 <= y < w.height && Live(w, y * w.width + x)
    ensures r.Some? ==> r.value == y * w.width + x && Live(w, r.value)
  {
    if x < 0 || y < 0 || x >= w.width || y >= w.height then None
    else
      IndexBounds(x, y, w.width, w.height);
      var i := y * w.width + x;
      if w.cells[i].None? then None
      else if w.cells[i].value.pendingDestroyed then None
      else Some(i)
  }

  /** Looking up the coordinates of cell i finds cell i exactly when it is live. */
  lemma GetFindsCell(w: World, i: int)
    requires ValidWorld(w) && 0 <= i < |w.cells|
    ensures Get(w, i % w.width, i / w.width) == if Live(w, i) then Some(i) else None
  {
    var x, y := i % w.width, i / w.width;
    assert i == y * w.width + x;
  }

  /** The neighbour helpers: `get` at (x-1, y), (x+1, y), (x, y-1) and (x, y+1). */
  function Left(w: World, c: Component): Option<nat>
    requires ValidWorld(w)
  {
    Get(w, c.x - 1, c.y)
  }

  function Right(w: World, c: Component): Option<nat>
    requires ValidWorld(w)
  {
    Get(w, c.x + 1, c.y)
  }

  function Above(w: World, c: Component): Option<nat>
    requires ValidWorld(w)
  {
    Get(w, c.x, c.y - 1)
  }

  function Below(w: World, c: Component): Option<nat>
    requires ValidWorld(w)
  {
    Get(w, c.x, c.y + 1)
  }

  /** The cell a lookup found, as a set: empty when it found none. */
  function Found(o: Option<nat>): set<int>
  {
    if o.Some? then {o.value as int} else {}
  }

  /** `r` differs from `w` at most in the pending state and in the cells listed in `js`. */
  predicate CellsKeptOutside(w: World, r: World, js: set<int>)
  {
    r == w.(cells := r.cells, pending := r.pending) && |r.cells| == |w.cells|
    && forall k :: 0 <= k < |w.cells| && k !in js ==> r.cells[k] == w.cells[k]
  }

  /** A lookup at a position whose cell did not change finds the same cell, holding the same component. */
  lemma LookupKept(w: World, r: World, js: set<int>, x: int, y: int)
    requires ValidWorld(w) && ValidWorld(r) && CellsKeptOutside(w, r, js)
    requires 0 <= x < w.width && 0 <= y < w.height ==> y * w.width + x !in js
    ensures Get(r, x, y) == Get(w, x, y)
    ensures Get(w, x, y).Some? ==> r.cells[Get(w, x, y).value] == w.cells[Get(w, x, y).value]
  {
    if 0 <= x < w.width && 0 <= y < w.height {
      IndexBounds(x, y, w.width, w.height);
      var k := y * w.width + x;
      assert r.cells[k] == w.cells[k];
    }
  }

  /**
    The four neighbours of a component lie one cell to either side and one
    row above and below its own cell, so (rows being at least three cells
    long) they are four different cells.
  */
  lemma NeighbourCells(w: World, c: Component)
    requires ValidWorld(w)
    ensures var b := c.y * w.width + c.x;
      (Left(w, c).Some? ==> Left(w, c).value == b - 1)
      && (Right(w, c).Some? ==> Right(w, c).value == b + 1)
      && (Above(w, c).Some? ==> Above(w, c).value == b - w.width)
      && (Below(w, c).Some? ==> Below(w, c).value == b + w.width)
    ensures (c.y - 1) * w.width + c.x == c.y * w.width + c.x - w.width
    ensures (c.y + 1) * w.width + c.x == c.y * w.width + c.x + w.width
  {
    RowShift(c.y, w.width);
  }

  /** The lookups of the four neighbours, made one after the other, never meet a cell an earlier one found. */
  lemma NeighboursApart(w: World, c: Component)
    requires ValidWorld(w)
    ensures var l, rt, a, b := Found(Left(w, c)), Found(Right(w, c)), Found(Above(w, c)), Found(Below(w, c));
      (0 <= c.x + 1 < w.width && 0 <= c.y < w.height ==> c.y * w.width + (c.x + 1) !in l)
      && (0 <= c.x < w.width && 0 <= c.y - 1 < w.height ==> (c.y - 1) * w.width + c.x !in l + rt)
      && (0 <= c.x < w.width && 0 <= c.y + 1 < w.height ==> (c.y + 1) * w.width + c.x !in l + rt + a)
      && l !! rt && l !! a && l !! b && rt !! a && rt !! b && a !! b
      && l + rt !! a && l + rt + a !! b
  {
    NeighbourCells(w, c);
  }

  /** The component in cell i sits at the coordinates of cell i, as `create` places it. */
  predicate AtOwnCell(w: World, i: int)
  {
    0 <= i < |w.cells| && w.cells[i].Some? && w.cells[i].value.y * w.width + w.cells[i].value.x == i
  }

  /** Every component of the grid sits at the coordinates of its own cell. */
  predicate Placed(w: World)
  {
    forall i :: 0 <= i < |w.cells| && w.cells[i].Some? ==> AtOwnCell(w, i)
  }

  /** None of the four neighbour lookups of a component finds the component's own cell. */
  lemma OwnCellApart(w: World, i: int)
    requires ValidWorld(w) && AtOwnCell(w, i)
    ensures var c := w.cells[i].value;
      i !in Found(Left(w, c)) + Found(Right(w, c)) + Found(Above(w, c)) + Found(Below(w, c))
  {
    NeighbourCells(w, w.cells[i].value);
  }

  lemma RowShift(y: int, width: int)
    ensures (y - 1) * width == y * width - width && (y + 1) * width == y * width + width
  {
  }

  /** `Reactor::setHeat` with its `heatCapacityExceeded` call. */
  function SetHeat(w: World, heat: int): (r: World)
    ensures r.pending.reactorHeat == heat
    ensures r.pending.meltdown <==> w.pending.meltdown || heat >= w.maxHeat
    ensures r == w.(pending := w.pending.(reactorHeat := heat, meltdown := r.pending.meltdown))
    ensures Evolves(w, r) && FuelCellsKept(w, r) && (ValidWorld(w) ==> ValidWorld(r))
  {
    var p := w.pending.(reactorHeat := heat);
    w.(pending := if p.reactorHeat >= w.maxHeat then p.(meltdown := true) else p)
  }

  /** `Reactor::addHeat`; the returned heat, unused by its callers, is left out. */
  function AddHeat(w: World, heat: int): (r: World)
    ensures r.pending.reactorHeat == w.pending.reactorHeat + heat
    ensures r.pending.meltdown <==> w.pending.meltdown || w.pending.reactorHeat + heat >= w.maxHeat
    ensures r == w.(pending := w.pending.(reactorHeat := r.pending.reactorHeat, meltdown := r.pending.meltdown))
    ensures Evolves(w, r) && FuelCellsKept(w, r) && (ValidWorld(w) ==> ValidWorld(r))
  {
    var p := w.pending.(reactorHeat := w.pending.reactorHeat + heat);
    w.(pending := if p.reactorHeat >= w.maxHeat then p.(meltdown := true) else p)
  }

  function GenerateEU(w: World, eu: int): (r: World)
    ensures r.pending.euGenerated == w.pending.euGenerated + eu
    ensures r == w.(pending := r.pending) && r.pending == w.pending.(euGenerated := r.pending.euGenerated)
    ensures Evolves(w, r) && FuelCellsKept(w, r) && (ValidWorld(w) ==> ValidWorld(r))
  {
    w.(pending := w.pending.(euGenerated := w.pending.euGenerated + eu))
  }

  /** `Reactor::componentDestroyed`: records a failure unless destruction is ignored. */
  function ComponentDestroyed(w: World): World
  {
    if !w.ignoreComponentDestroyed then w.(pending := w.pending.(componentFailed := true)) else w
  }

  /**
    `ReactorComponent::setDestroyed`: nothing when destruction is ignored;
    otherwise sets the pending flag, and reports a failure only when the
    component goes from not destroyed to destroyed.
  */
  function SetDestroyed(w: World, i: int, d: bool): (r: World)
    requires 0 <= i < |w.cells| && w.cells[i].Some?
    ensures w.ignoreComponentDestroyed ==> r == w
    ensures !w.ignoreComponentDestroyed ==>
      r.cells == w.cells[i := Some(w.cells[i].value.(pendingDestroyed := d))]
      && (r.pending.componentFailed <==> w.pending.componentFailed || (d && !w.cells[i].value.pendingDestroyed))
      && r == w.(cells := r.cells, pending := w.pending.(componentFailed := r.pending.componentFailed))
  {
    if w.ignoreComponentDestroyed then w
    else
      var c := w.cells[i].value;
      var wasDestroyed := c.pendingDestroyed;
      var w1 := w.(cells := w.cells[i := Some(c.(pendingDestroyed := d))]);
      if d && !wasDestroyed then ComponentDestroyed(w1) else w1
  }

  /** What a commit fixed about a component: everything but its pending values. */
  datatype Committed = Committed(kind: ComponentType, x: int, y: int, cost: int, lastDestroyed: bool, parameters: Part, last: int)

  function CommittedOf(c: Component): Committed
  {
    Committed(c.kind, c.x, c.y, c.cost, c.lastDestroyed, Parameters(c.part), LastValue(c.part))
  }

  /** Two components that differ at most in their pending values. */
  predicate SameCommitted(c: Component, d: Component)
  {
    CommittedOf(c) == CommittedOf(d)
  }

  function CommittedCell(o: Option<Component>): Option<Committed>
  {
    if o.None? then None else Some(CommittedOf(o.value))
  }

  /** The committed view of a grid, cell by cell. */
  function CommittedCells(cells: seq<Option<Component>>): (r: seq<Option<Committed>>)
    ensures |r| == |cells|
  {
    seq(|cells|, i requires 0 <= i < |cells| => CommittedCell(cells[i]))
  }

  predicate CommittedAgree(a: Option<Component>, b: Option<Component>)
  {
    CommittedCell(a) == CommittedCell(b)
  }

  /** No present component is marked destroyed. */
  predicate NoneDestroyed(cells: seq<Option<Component>>)
  {
    forall i :: 0 <= i < |cells| && cells[i].Some? ==> !cells[i].value.pendingDestroyed
  }

  /** Every destroyed component has been reported as a failure (or destruction is ignored). */
  predicate Reported(w: World)
  {
    w.ignoreComponentDestroyed || w.pending.componentFailed || NoneDestroyed(w.cells)
  }

  /**
    What the work of a tick may change: pending values only. The committed
    state, the grid and the flags stay; meltdown and failure, once set, stay
    set; every destruction stays reported.
  */
  predicate Evolves(w: World, r: World)
  {
    r.width == w.width && r.height == w.height && |r.cells| == |w.cells|
    && r.ignoreComponentDestroyed == w.ignoreComponentDestroyed
    && r.numUraniumCells == w.numUraniumCells && r.usesSingleUseCoolant == w.usesSingleUseCoolant
    && r.cur == w.cur && r.pending.curTick == w.pending.curTick && r.maxHeat >= w.maxHeat
    && (w.pending.meltdown ==> r.pending.meltdown)
    && (w.pending.componentFailed ==> r.pending.componentFailed)
    && (Reported(w) ==> Reported(r))
    && CommittedCells(r.cells) == CommittedCells(w.cells)
  }

  /** Cell i of two worlds one evolved into the other. */
  lemma EvolvesAt(w: World, r: World, i: int)
    requires Evolves(w, r) && 0 <= i < |w.cells|
    ensures CommittedAgree(w.cells[i], r.cells[i])
    ensures w.cells[i].Some? <==> r.cells[i].Some?
  {
    assert CommittedCells(w.cells)[i] == CommittedCells(r.cells)[i];
  }

  lemma EvolvesRefl(w: World)
    ensures Evolves(w, w)
  {
  }

  lemma EvolvesTrans(a: World, b: World, c: World)
    requires Evolves(a, b) && Evolves(b, c)
    ensures Evolves(a, c)
  {
  }

  /** Fuel cells are left alone (used by everything a fuel cell's own tick does). */
  predicate FuelCellsKept(w: World, r: World)
  {
    FuelCells(r.cells) == FuelCells(w.cells)
  }

  function FuelOnly(o: Option<Component>): Option<Component>
  {
    if o.Some? && o.value.part.FuelCell? then o else None
  }

  /** The fuel cells of a grid, in their cells, every other cell left empty. */
  function FuelCells(cells: seq<Option<Component>>): (r: seq<Option<Component>>)
    ensures |r| == |cells|
  {
    seq(|cells|, i requires 0 <= i < |cells| => FuelOnly(cells[i]))
  }

  lemma FuelKeptAt(w: World, r: World, i: int)
    requires FuelCellsKept(w, r) && 0 <= i < |w.cells| && w.cells[i].Some? && w.cells[i].value.part.FuelCell?
    ensures r.cells[i] == w.cells[i]
  {
    assert FuelCells(w.cells)[i] == FuelCells(r.cells)[i];
  }

  lemma FuelCellsKeptTrans(a: World, b: World, c: World)
    requires FuelCellsKept(a, b) && FuelCellsKept(b, c)
    ensures FuelCellsKept(a, c)
  {
  }

  /** Replacing one component by one with the same committed view keeps the invariant and the history. */
  lemma ReplaceEvolves(w: World, i: int, c: Component)
    requires ValidWorld(w) && 0 <= i < |w.cells| && w.cells[i].Some?
    requires SameCommitted(w.cells[i].value, c) && StateInBounds(c.part)
    requires c.pendingDestroyed == w.cells[i].value.pendingDestroyed
    ensures var r := w.(cells := w.cells[i := Some(c)]); ValidWorld(r) && Evolves(w, r)
  {
    var r := w.(cells := w.cells[i := Some(c)]);
    assert ValidComponent(w.cells[i].value);
    assert ValidCells(r.cells) by {
      forall j | 0 <= j < |r.cells| && r.cells[j].Some?
        ensures ValidComponent(r.cells[j].value)
      {
        if j != i {
          assert r.cells[j] == w.cells[j];
        }
      }
    }
    assert Reported(w) ==> Reported(r) by {
      if Reported(w) && !w.ignoreComponentDestroyed && !w.pending.componentFailed {
        forall j | 0 <= j < |r.cells| && r.cells[j].Some?
          ensures !r.cells[j].value.pendingDestroyed
        {
          assert w.cells[j].Some?;
        }
      }
    }
  }

  /** Setting the destroyed flag keeps the invariant and the history. */
  lemma SetDestroyedEvolves(w: World, i: int)
    requires ValidWorld(w) && 0 <= i < |w.cells| && w.cells[i].Some?
    ensures var r := SetDestroyed(w, i, true); ValidWorld(r) && Evolves(w, r)
    ensures !w.cells[i].value.part.FuelCell? ==> FuelCellsKept(w, SetDestroyed(w, i, true))
  {
    var r := SetDestroyed(w, i, true);
    if !w.ignoreComponentDestroyed {
      var c := w.cells[i].value;
      assert ValidComponent(c);
      assert ValidCells(r.cells) by {
        forall j | 0 <= j < |r.cells| && r.cells[j].Some?
          ensures ValidComponent(r.cells[j].value)
        {
          if j != i {
            assert r.cells[j] == w.cells[j];
          }
        }
      }
      assert Reported(w) ==> Reported(r) by {
        if Reported(w) && !r.pending.componentFailed {
          assert false;
        }
      }
    }
  }

  /**
    The component-level `alterHeat` applied to cell i. It returns the heat
    handed back; an overflowing heat store is marked destroyed instead of changed.
  */
  function AlterHeatAt(w: World, i: int, heat: int): (r: (World, int))
    requires ValidWorld(w) && 0 <= i < |w.cells| && w.cells[i].Some?
    ensures ValidWorld(r.0) && Evolves(w, r.0) && FuelCellsKept(w, r.0)
    ensures r.0 == w.(cells := r.0.cells, pending := w.pending.(componentFailed := r.0.pending.componentFailed))
    ensures forall j :: 0 <= j < |w.cells| && j != i ==> r.0.cells[j] == w.cells[j]
    ensures var c := w.cells[i].value; var a := AlterPart(c.part, heat);
      r.0.cells[i] == Some(c.(part := a.part, pendingDestroyed := c.pendingDestroyed || (a.destroy && !w.ignoreComponentDestroyed)))
      && r.1 == a.returned
  {
    var c := w.cells[i].value;
    assert ValidComponent(c);
    var a := AlterPart(c.part, heat);
    var c1 := c.(part := a.part);
    var w1 := w.(cells := w.cells[i := Some(c1)]);
    ReplaceEvolves(w, i, c1);
    if a.destroy then
      SetDestroyedEvolves(w1, i);
      EvolvesTrans(w, w1, SetDestroyed(w1, i, true));
      (SetDestroyed(w1, i, true), a.returned)
    else
      (w1, a.returned)
  }

  /**
    Virtual `acceptUraniumPulse` on cell i. A fuel cell accepts while its
    usage is within its maximum and gives 5 EU in the POWER phase. A
    reflector always accepts: 5 EU in the POWER phase, otherwise one more
    use and destruction once its usage exceeds its durability. Every other
    component refuses.
  */
  function AcceptPulseAt(w: World, i: int, phase: SimPhase): (r: (World, bool))
    requires ValidWorld(w) && 0 <= i < |w.cells| && w.cells[i].Some?
    ensures ValidWorld(r.0) && Evolves(w, r.0) && FuelCellsKept(w, r.0)
    ensures var p := w.cells[i].value.part;
      r.1 <==> (p.FuelCell? && p.pendingUsage <= p.maxUsage) || p.Reflector?
    ensures !r.1 ==> r.0 == w
    ensures r.1 && phase == PhasePower ==> r.0 == GenerateEU(w, EU_PER_PULSE)
    ensures w.cells[i].value.part.FuelCell? && phase == PhaseHeatRun ==> r.0 == w
    ensures CellsKeptOutside(w, r.0, {i})
    ensures phase == PhasePower ==> r.0 == w.(pending := w.pending.(euGenerated := w.pending.euGenerated + (if r.1 then EU_PER_PULSE else 0)))
    ensures phase == PhaseHeatRun ==> r.0.pending == w.pending.(componentFailed := r.0.pending.componentFailed)
    ensures var c := w.cells[i].value; c.part.Reflector? && phase == PhaseHeatRun ==>
      var used := w.(cells := w.cells[i := Some(c.(part := Reflector(c.part.lastUsage, c.part.pendingUsage + 1, c.part.maxUsage)))]);
      r.0 == if c.part.pendingUsage + 1 > c.part.maxUsage then SetDestroyed(used, i, true) else used
  {
    var c := w.cells[i].value;
    match c.part
    case FuelCell(_, _, u, m) =>
      if u <= m then
        (if phase == PhasePower then GenerateEU(w, EU_PER_PULSE) else w, true)
      else
        (w, false)
    case Reflector(l, u, m) =>
      if phase == PhasePower then
        (GenerateEU(w, EU_PER_PULSE), true)
      else
        var c1 := c.(part := Reflector(l, u + 1, m));
        var w1 := w.(cells := w.cells[i := Some(c1)]);
        ReplaceEvolves(w, i, c1);
        if u + 1 > m then
          SetDestroyedEvolves(w1, i);
          EvolvesTrans(w, w1, SetDestroyed(w1, i, true));
          (SetDestroyed(w1, i, true), true)
        else
          (w1, true)
    case _ => (w, false)
  }

  /** Every present component holds equal committed and pending copies. */
  predicate Settled(cells: seq<Option<Component>>)
  {
    forall i :: 0 <= i < |cells| && cells[i].Some? ==>
      cells[i].value.lastDestroyed == cells[i].value.pendingDestroyed
      && LastValue(cells[i].value.part) == PendingValue(cells[i].value.part)
  }

  function CommitCell(o: Option<Component>): Option<Component>
  {
    match o
    case None => None
    case Some(c) =>
      var c1 := CommitComponent(c);
      if c1.pendingDestroyed then None else Some(c1)
  }

  /**
    `Reactor::commit`: the pending state becomes the committed one, every
    component commits, and destroyed components leave the grid.
  */
  function CommitF(w: World): (r: World)
    ensures r == w.(cur := w.pending, cells := r.cells)
    ensures |r.cells| == |w.cells| && Settled(r.cells) && NoneDestroyed(r.cells)
    ensures forall i :: 0 <= i < |w.cells| ==>
      (r.cells[i].Some? <==> w.cells[i].Some? && !w.cells[i].value.pendingDestroyed)
    ensures forall i :: 0 <= i < |w.cells| && r.cells[i].Some? ==>
      r.cells[i].value.(lastDestroyed := w.cells[i].value.lastDestroyed) == w.cells[i].value.(part := r.cells[i].value.part)
      && Parameters(r.cells[i].value.part) == Parameters(w.cells[i].value.part)
      && PendingValue(r.cells[i].value.part) == PendingValue(w.cells[i].value.part)
    ensures ValidWorld(w) ==> ValidWorld(r)
  {
    var cells := seq(|w.cells|, i requires 0 <= i < |w.cells| => CommitCell(w.cells[i]));
    assert ValidCells(w.cells) ==> ValidCells(cells) by {
      if ValidCells(w.cells) {
        forall i | 0 <= i < |cells| && cells[i].Some?
          ensures ValidComponent(cells[i].value)
        {
          assert ValidComponent(w.cells[i].value);
        }
      }
    }
    w.(cur := w.pending, cells := cells)
  }

  function RollbackCell(o: Option<Component>): Option<Component>
  {
    match o
    case None => None
    case Some(c) => Some(RollbackComponent(c))
  }

  /** `Reactor::rollback`: the committed state is copied back over the pending one, for the reactor and every component. */
  function RollbackF(w: World): (r: World)
    ensures r == w.(pending := w.cur, cells := r.cells)
    ensures |r.cells| == |w.cells| && Settled(r.cells)
    ensures forall i :: 0 <= i < |w.cells| ==> CommittedAgree(w.cells[i], r.cells[i])
    ensures ValidWorld(w) ==> ValidWorld(r)
  {
    var cells := seq(|w.cells|, i requires 0 <= i < |w.cells| => RollbackCell(w.cells[i]));
    RollbackCellsFacts(w.cells, cells);
    w.(pending := w.cur, cells := cells)
  }

  lemma RollbackCellsFacts(cells: seq<Option<Component>>, rolled: seq<Option<Component>>)
    requires |rolled| == |cells| && forall i :: 0 <= i < |cells| ==> rolled[i] == RollbackCell(cells[i])
    ensures Settled(rolled)
    ensures forall i :: 0 <= i < |cells| ==> CommittedAgree(cells[i], rolled[i])
    ensures ValidCells(cells) ==> ValidCells(rolled)
  {
    forall i | 0 <= i < |cells| && cells[i].Some?
      ensures CommittedAgree(cells[i], rolled[i])
      ensures LastValue(rolled[i].value.part) == PendingValue(rolled[i].value.part)
      ensures ValidComponent(cells[i].value) ==> ValidComponent(rolled[i].value)
    {
      var p := cells[i].value.part;
      assert rolled[i].value.part == RollbackPart(p);
    }
  }

  lemma RollbackSettledCell(c: Component)
    requires c.lastDestroyed == c.pendingDestroyed && LastValue(c.part) == PendingValue(c.part)
    ensures RollbackComponent(c) == c
  {
    PartExtensionality(RollbackPart(c.part), c.part);
  }

  /** A rollback right after a commit changes nothing. */
  lemma RollbackAfterCommitF(w: World)
    ensures RollbackF(CommitF(w)) == CommitF(w)
  {
    var c := CommitF(w);
    var r := RollbackF(c);
    assert r.cells == c.cells by {
      forall i | 0 <= i < |c.cells|
        ensures r.cells[i] == c.cells[i]
      {
        if c.cells[i].Some? {
          RollbackSettledCell(c.cells[i].value);
        }
      }
    }
  }

  /**
    Rollback sees only the committed copy: whatever a tick did to pending
    values, rolling back yields what rolling back before it yielded, except
    for the reactor's capacity, which rollback does not restore.
  */
  lemma RollbackUndoesEvolution(w: World, r: World)
    requires Evolves(w, r)
    ensures RollbackF(r) == RollbackF(w).(maxHeat := r.maxHeat)
  {
    var a, b := RollbackF(r), RollbackF(w);
    assert a.cells == b.cells by {
      forall i | 0 <= i < |w.cells|
        ensures a.cells[i] == b.cells[i]
      {
        EvolvesAt(w, r, i);
        if w.cells[i].Some? {
          var c, d := w.cells[i].value, r.cells[i].value;
          PartExtensionality(RollbackPart(c.part), RollbackPart(d.part));
        }
      }
    }
  }

  /** `Reactor::removeFuel`: every fuel cell leaves the grid; nothing else changes. */
  function RemoveFuelF(w: World): (r: World)
    ensures r == w.(cells := r.cells) && |r.cells| == |w.cells|
    ensures forall i :: 0 <= i < |w.cells| && r.cells[i].Some? ==> !IsFuel(r.cells[i].value.kind)
    ensures forall i :: 0 <= i < |w.cells| && !(w.cells[i].Some? && IsFuel(w.cells[i].value.kind)) ==> r.cells[i] == w.cells[i]
    ensures ValidWorld(w) ==> ValidWorld(r)
  {
    w.(cells := seq(|w.cells|, i requires 0 <= i < |w.cells| =>
      if w.cells[i].Some? && IsFuel(w.cells[i].value.kind) then None else w.cells[i]))
  }

  /** The number of non-null cells among the first k. */
  function PresentCount(cells: seq<Option<Component>>): nat
  {
    if cells == [] then 0
    else PresentCount(cells[..|cells| - 1]) + (if cells[|cells| - 1].Some? then 1 else 0)
  }

  /** `getTotalCost` as its loop defines it: the sum of the costs of the non-null cells. */
  function CostSum(cells: seq<Option<Component>>): int
  {
    if cells == [] then 0
    else CostSum(cells[..|cells| - 1]) + (if cells[|cells| - 1].Some? then cells[|cells| - 1].value.cost else 0)
  }

  /** Every component costs 2, so the total cost is twice the number of components. */
  lemma {:induction false} CostIsTwicePresent(cells: seq<Option<Component>>)
    requires ValidCells(cells)
    ensures CostSum(cells) == 2 * PresentCount(cells)
  {
    if cells != [] {
      var init := cells[..|cells| - 1];
      assert ValidCells(init) by {
        forall i | 0 <= i < |init| && init[i].Some?
          ensures ValidComponent(init[i].value)
        {
          assert init[i] == cells[i];
        }
      }
      CostIsTwicePresent(init);
      if cells[|cells| - 1].Some? {
        assert ValidComponent(cells[|cells| - 1].value);
      }
    }
  }

  /** Uranium cells counted as `initializeSimulation` does: 1, 2 or 4 per fuel component. */
  function FuelWeight(o: Option<Component>): nat
  {
    if o.None? then 0
    else if o.value.kind == UraniumCell then 1
    else if o.value.kind == DualUraniumCell then 2
    else if o.value.kind == QuadUraniumCell then 4
    else 0
  }

  function UraniumCount(cells: seq<Option<Component>>): nat
  {
    if cells == [] then 0 else UraniumCount(cells[..|cells| - 1]) + FuelWeight(cells[|cells| - 1])
  }

  function HasCondensator(cells: seq<Option<Component>>): bool
  {
    if cells == [] then false
    else (HasCondensator(cells[..|cells| - 1])
      || (cells[|cells| - 1].Some? && IsCondensatorKind(cells[|cells| - 1].value.kind)))
  }

  /** Extending the counted prefix of a grid by one cell. */
  lemma CountsStep(cells: seq<Option<Component>>, k: nat)
    requires k < |cells|
    ensures UraniumCount(cells[..k + 1]) == UraniumCount(cells[..k]) + FuelWeight(cells[k])
    ensures HasCondensator(cells[..k + 1])
      == (HasCondensator(cells[..k]) || (cells[k].Some? && IsCondensatorKind(cells[k].value.kind)))
  {
    assert cells[..k + 1][..k] == cells[..k];
  }

  /** The fuel count is zero exactly when the grid holds no fuel cell. */
  lemma {:induction false} UraniumCountZero(cells: seq<Option<Component>>)
    ensures UraniumCount(cells) == 0 <==> forall i :: 0 <= i < |cells| && cells[i].Some? ==> !IsFuel(cells[i].value.kind)
  {
    if cells != [] {
      var init := cells[..|cells| - 1];
      UraniumCountZero(init);
      assert forall i :: 0 <= i < |init| ==> init[i] == cells[i];
    }
  }

  /** The single-use-coolant flag is set exactly when a condensator is present. */
  lemma {:induction false} HasCondensatorIff(cells: seq<Option<Component>>)
    ensures HasCondensator(cells) <==> exists i :: 0 <= i < |cells| && cells[i].Some? && IsCondensatorKind(cells[i].value.kind)
  {
    if cells != [] {
      var init := cells[..|cells| - 1];
      HasCondensatorIff(init);
      assert forall i :: 0 <= i < |init| ==> init[i] == cells[i];
    }
  }

  /**
    `Reactor::initializeSimulation`: both simulation states reset to their
    defaults, and the fuel count and single-use-coolant flag recomputed.
  */
  function InitializeF(w: World): (r: World)
    ensures r.cur == DEFAULT_SIMULATION_STATE && r.pending == DEFAULT_SIMULATION_STATE
    ensures r == w.(cur := r.cur, pending := r.pending, numUraniumCells := r.numUraniumCells, usesSingleUseCoolant := r.usesSingleUseCoolant)
    ensures ValidWorld(w) ==> ValidWorld(r)
  {
    w.(cur := DEFAULT_SIMULATION_STATE, pending := DEFAULT_SIMULATION_STATE,
       numUraniumCells := UraniumCount(w.cells), usesSingleUseCoolant := HasCondensator(w.cells))
  }

  /** After `initializeSimulation` the fuel count is zero exactly without fuel, and the coolant flag says whether a condensator is present. */
  lemma InitializeCounts(w: World)
    ensures var r := InitializeF(w);
      (r.numUraniumCells == 0 <==> forall i :: 0 <= i < |w.cells| && w.cells[i].Some? ==> !IsFuel(w.cells[i].value.kind))
      && (r.usesSingleUseCoolant <==> exists i :: 0 <= i < |w.cells| && w.cells[i].Some? && IsCondensatorKind(w.cells[i].value.kind))
  {
    UraniumCountZero(w.cells);
    HasCondensatorIff(w.cells);
  }

  function ResetUsageCell(o: Option<Component>): Option<Component>
  {
    match o
    case None => None
    case Some(c) => Some(c.(part := ResetUsagePart(c.part)))
  }

  /**
    `Reactor::resetUsage`: components reset their usage counters (not their
    heat); the committed tick and EU restart at 0 and become the pending state.
  */
  function ResetUsageF(w: World): (r: World)
    ensures r.cur == w.cur.(curTick := 0, euGenerated := 0) && r.pending == r.cur
    ensures r == w.(cur := r.cur, pending := r.pending, cells := r.cells) && |r.cells| == |w.cells|
    ensures forall i :: 0 <= i < |w.cells| ==> r.cells[i].Some? == w.cells[i].Some?
    ensures forall i :: 0 <= i < |w.cells| && w.cells[i].Some? ==>
      r.cells[i].value == w.cells[i].value.(part := ResetUsagePart(w.cells[i].value.part))
    ensures ValidWorld(w) ==> ValidWorld(r)
  {
    var c := w.cur.(curTick := 0, euGenerated := 0);
    var cells := seq(|w.cells|, i requires 0 <= i < |w.cells| => ResetUsageCell(w.cells[i]));
    assert ValidCells(w.cells) ==> ValidCells(cells) by {
      if ValidCells(w.cells) {
        forall i | 0 <= i < |cells| && cells[i].Some?
          ensures ValidComponent(cells[i].value)
        {
          assert ValidComponent(w.cells[i].value);
        }
      }
    }
    w.(cur := c, pending := c, cells := cells)
  }

  /** COMPONENT_NONE stands for every kind `create` does not build. */
  function Normalize(t: ComponentType): (r: ComponentType)
    ensures r == ComponentNone <==> Create(t, 0, 0).None?
    ensures r != ComponentNone ==> r == t
  {
    if t == ComponentCount then ComponentNone else t
  }

  /** `Reactor::getComponentTypes`: the kind in every cell, COMPONENT_NONE for an empty one. */
  function GetComponentTypesF(w: World): (r: seq<ComponentType>)
    ensures |r| == |w.cells|
    ensures forall i :: 0 <= i < |w.cells| && w.cells[i].Some? ==> r[i] == w.cells[i].value.kind
    ensures ValidCells(w.cells) ==> forall i :: 0 <= i < |w.cells| ==> (r[i] == ComponentNone <==> w.cells[i].None?)
  {
    var r := seq(|w.cells|, i requires 0 <= i < |w.cells| => if w.cells[i].None? then ComponentNone else w.cells[i].value.kind);
    assert ValidCells(w.cells) ==> forall i :: 0 <= i < |w.cells| ==> (r[i] == ComponentNone <==> w.cells[i].None?) by {
      if ValidCells(w.cells) {
        forall i | 0 <= i < |w.cells| && w.cells[i].Some?
          ensures r[i] != ComponentNone
        {
          assert ValidComponent(w.cells[i].value);
        }
      }
    }
    r
  }

  /**
    `Reactor::setComponentTypes`: cell y*width+x receives a fresh component
    of kind types[y*width+x] at (x, y).
  */
  function SetComponentTypesF(w: World, types: seq<ComponentType>): (r: World)
    requires ValidWorld(w) && |types| >= |w.cells|
    ensures r == w.(cells := r.cells) && |r.cells| == |w.cells| && ValidWorld(r)
    ensures forall i :: 0 <= i < |w.cells| ==> r.cells[i] == Create(types[i], i % w.width, i / w.width)
  {
    var cells := seq(|w.cells|, i requires 0 <= i < |w.cells| => Create(types[i], i % w.width, i / w.width));
    assert ValidCells(cells);
    w.(cells := cells)
  }

  /** `setComponentTypes` places every component it builds at its own cell. */
  lemma SetComponentTypesPlaces(w: World, types: seq<ComponentType>)
    requires ValidWorld(w) && |types| >= |w.cells|
    ensures Placed(SetComponentTypesF(w, types))
  {
    var r := SetComponentTypesF(w, types);
    forall i | 0 <= i < |r.cells| && r.cells[i].Some?
      ensures AtOwnCell(r, i)
    {
      assert r.cells[i] == Create(types[i], i % w.width, i / w.width);
      assert (i / w.width) * w.width + i % w.width == i;
    }
  }

  /**
    Setting the kinds and reading them back gives the kinds, with every kind
    `create` does not build reported as COMPONENT_NONE; setting the kinds
    read back rebuilds the same grid.
  */
  lemma TypesRoundTrip(w: World, types: seq<ComponentType>)
    requires ValidWorld(w) && |types| >= |w.cells|
    ensures GetComponentTypesF(SetComponentTypesF(w, types)) == seq(|w.cells|, i requires 0 <= i < |w.cells| => Normalize(types[i]))
    ensures var s := SetComponentTypesF(w, types); SetComponentTypesF(s, GetComponentTypesF(s)) == s
  {
    var s := SetComponentTypesF(w, types);
    var g := GetComponentTypesF(s);
    assert g == seq(|w.cells|, i requires 0 <= i < |w.cells| => Normalize(types[i]));
    var s2 := SetComponentTypesF(s, g);
    assert s2.cells == s.cells by {
      forall i | 0 <= i < |w.cells|
        ensures s2.cells[i] == s.cells[i]
      {
        assert g[i] == Normalize(types[i]);
      }
    }
  }

  /** `Reactor::Reactor(extraChambers)`: an empty grid 3+extraChambers wide and 6 high. */
  function NewWorld(extraChambers: int): (r: World)
    requires 0 <= extraChambers <= 6
    ensures ValidWorld(r) && r.width == 3 + extraChambers && r.maxHeat == BASE_MAX_HEAT
    ensures forall i :: 0 <= i < |r.cells| ==> r.cells[i].None?
    ensures r.cur == DEFAULT_SIMULATION_STATE && r.pending == DEFAULT_SIMULATION_STATE && !r.ignoreComponentDestroyed
  {
    var width := 3 + extraChambers;
    World(width, GRID_HEIGHT, seq(width * GRID_HEIGHT, _ => None), BASE_MAX_HEAT, false, 0, false,
      DEFAULT_SIMULATION_STATE, DEFAULT_SIMULATION_STATE)
  }
}
