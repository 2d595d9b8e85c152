/**
  The per-component `tick` rules and the reactor's tick: heat vents,
  spreading vents, heat exchangers, fuel cells and plating, the row-major
  phase over the grid, and `runTick`.
*/
module ReactorTicks {
  import opened Wrappers
  import opened ReactorTypes
  import opened Components
  import opened ReactorModel

  /** Cell i holds a component whose part satisfies the variant test of the caller. */
  predicate Holds(w: World, i: int)
  {
    ValidWorld(w) && 0 <= i < |w.cells| && w.cells[i].Some?
  }

  /** Indices that keep naming present components. */
  predicate Present(w: World, acc: seq<nat>)
  {
    forall k :: 0 <= k < |acc| ==> acc[k] < |w.cells| && w.cells[acc[k]].Some?
  }

  lemma PresentKept(w: World, r: World, acc: seq<nat>)
    requires Evolves(w, r) && Present(w, acc)
    ensures Present(r, acc)
  {
    forall k | 0 <= k < |acc|
      ensures acc[k] < |r.cells| && r.cells[acc[k]].Some?
    {
      EvolvesAt(w, r, acc[k]);
    }
  }

  lemma HoldsKept(w: World, r: World, i: int)
    requires Holds(w, i) && ValidWorld(r) && Evolves(w, r)
    ensures Holds(r, i) && SameCommitted(w.cells[i].value, r.cells[i].value)
  {
    EvolvesAt(w, r, i);
  }

  function Sum(s: seq<int>): int
  {
    if s == [] then 0 else Sum(s[..|s| - 1]) + s[|s| - 1]
  }

  lemma SumSnoc(s: seq<int>, x: int)
    ensures Sum(s + [x]) == Sum(s) + x
  {
    assert (s + [x])[..|s|] == s;
  }

  // ----- HeatVent -----

  /**
    `HeatVent::tick`: in the HEAT phase a vent that draws from the reactor
    first takes min(reactor heat, its rate) into its store, then lowers the
    reactor's heat by that amount, and always dissipates its own rate.
  */
  function VentTick(w: World, i: int, phase: SimPhase): (r: World)
    requires Holds(w, i) && w.cells[i].value.part.Vent?
    ensures ValidWorld(r) && Evolves(w, r) && FuelCellsKept(w, r)
    ensures CellsKeptOutside(w, r, {i})
    ensures phase != PhaseHeatRun ==> r == w
  {
    if phase != PhaseHeatRun then w
    else
      var v := w.cells[i].value.part;
      if v.heatFromReactor > 0 then
        var rh := w.pending.reactorHeat;
        var rdrain := if rh > v.heatFromReactor then v.heatFromReactor else rh;
        var (w1, ret) := AlterHeatAt(w, i, rdrain);
        if ret > 0 then w1
        else
          var w2 := SetHeat(w1, rh - rdrain);
          EvolvesTrans(w, w1, w2);
          var w3 := AlterHeatAt(w2, i, -v.heatDissipated).0;
          EvolvesTrans(w, w2, w3);
          w3
      else
        AlterHeatAt(w, i, -v.heatDissipated).0
  }

  /** The early return of a vent's tick never fires: a heat store never hands back positive heat. */
  lemma VentDrainNeverReturned(w: World, i: int, heat: int)
    requires Holds(w, i) && w.cells[i].value.part.Vent?
    ensures AlterHeatAt(w, i, heat).1 <= 0
  {
  }

  /**
    A reactor vent always lowers the reactor's heat by min(heat, rate), even
    when its own store overflows and it is destroyed instead of absorbing it.
  */
  lemma VentDrainsReactor(w: World, i: int)
    requires Holds(w, i) && w.cells[i].value.part.Vent? && w.cells[i].value.part.heatFromReactor > 0
    ensures var rh, f := w.pending.reactorHeat, w.cells[i].value.part.heatFromReactor;
      VentTick(w, i, PhaseHeatRun).pending.reactorHeat == rh - (if rh > f then f else rh)
  {
    var v := w.cells[i].value.part;
    var rh := w.pending.reactorHeat;
    var rdrain := if rh > v.heatFromReactor then v.heatFromReactor else rh;
    var (w1, ret) := AlterHeatAt(w, i, rdrain);
    assert ret <= 0;
    var w2 := SetHeat(w1, rh - rdrain);
    assert AlterHeatAt(w2, i, -v.heatDissipated).0.pending.reactorHeat == w2.pending.reactorHeat;
  }

  /**
    A vent that draws from the reactor first takes d = min(reactor heat,
    rate) into its store and then gives off its dissipation rate; it is
    marked destroyed when either step overflows its store, unless
    destruction is ignored.
  */
  lemma VentDrawsThenCools(w: World, i: int)
    requires Holds(w, i) && w.cells[i].value.part.Vent? && w.cells[i].value.part.heatFromReactor > 0
    ensures var c := w.cells[i].value; var v := c.part; var rh := w.pending.reactorHeat;
      var d := if rh > v.heatFromReactor then v.heatFromReactor else rh;
      var a1 := AlterPart(v, d); var a2 := AlterPart(a1.part, -v.heatDissipated);
      var r := VentTick(w, i, PhaseHeatRun);
      r.cells[i].Some? && r.cells[i].value.part == a2.part
      && r.cells[i].value.pendingDestroyed == (c.pendingDestroyed || ((a1.destroy || a2.destroy) && !w.ignoreComponentDestroyed))
  {
    var v := w.cells[i].value.part;
    var rh := w.pending.reactorHeat;
    var rdrain := if rh > v.heatFromReactor then v.heatFromReactor else rh;
    var (w1, ret) := AlterHeatAt(w, i, rdrain);
    assert ret <= 0;
    var w2 := SetHeat(w1, rh - rdrain);
    assert w2.cells == w1.cells;
  }

  /**
    A vent that draws nothing from the reactor cools its store by its rate,
    stopping at zero, and leaves the reactor alone.
  */
  lemma {:induction false} VentCools(w: World, i: int)
    requires Holds(w, i) && w.cells[i].value.part.Vent? && w.cells[i].value.part.heatFromReactor == 0
    ensures var v := w.cells[i].value.part; var r := VentTick(w, i, PhaseHeatRun);
      r.pending == w.pending && r.cells[i].Some?
      && r.cells[i].value.part.store.pendingHeat == if v.store.pendingHeat >= v.heatDissipated then v.store.pendingHeat - v.heatDissipated else 0
  {
    var c := w.cells[i].value;
    assert ValidComponent(c);
    ParameterFacts(c);
  }

  // ----- ComponentHeatVent -----

  /** Cell j after `amount` was taken from it: a heat store is altered by -amount, anything else is kept. */
  function Dissipated(w: World, j: int, amount: int): Option<Component>
    requires 0 <= j < |w.cells|
  {
    var o := w.cells[j];
    if o.Some? && CanStoreHeat(o.value) then Some(o.value.(part := AlterPart(o.value.part, -amount).part)) else o
  }

  /** The cells the four neighbour lookups of `c` find. */
  function NeighbourSet(w: World, c: Component): set<int>
    requires ValidWorld(w)
  {
    Found(Left(w, c)) + Found(Right(w, c)) + Found(Above(w, c)) + Found(Below(w, c))
  }

  /** `ComponentHeatVent::checkDissipate`: a live neighbour that can store heat loses `amount`. */
  function CheckDissipate(w: World, o: Option<nat>, amount: int): (r: World)
    requires ValidWorld(w) && (o.Some? ==> Live(w, o.value))
    ensures ValidWorld(r) && Evolves(w, r) && FuelCellsKept(w, r)
    ensures o.None? || !CanStoreHeat(w.cells[o.value].value) ==> r == w
    ensures amount >= 0 ==> r.pending == w.pending
    ensures o.Some? && CanStoreHeat(w.cells[o.value].value) ==>
      r.cells[o.value].Some? && r.cells[o.value].value.part == AlterPart(w.cells[o.value].value.part, -amount).part
    ensures CellsKeptOutside(w, r, Found(o))
    ensures amount >= 0 && o.Some? ==> r.cells[o.value] == Dissipated(w, o.value, amount)
  {
    match o
    case None => w
    case Some(j) =>
      if CanStoreHeat(w.cells[j].value) then
        var c := w.cells[j].value;
        assert ValidComponent(c);
        assert amount >= 0 ==> !AlterPart(c.part, -amount).destroy;
        AlterHeatAt(w, j, -amount).0
      else w
  }

  /** Cell `o`, when a lookup found one, is cell `o` of `w` after `e` was dissipated from it. */
  predicate DissipatedAt(w: World, r: World, o: Option<nat>, e: int)
  {
    o.Some? ==> o.value < |w.cells| == |r.cells| && r.cells[o.value] == Dissipated(w, o.value, e)
  }

  /** `r` is `w` with `e` dissipated from each neighbour of `c`, and every other cell kept. */
  predicate VentedAround(w: World, r: World, c: Component, e: int)
    requires ValidWorld(w)
  {
    CellsKeptOutside(w, r, NeighbourSet(w, c))
    && DissipatedAt(w, r, Left(w, c), e) && DissipatedAt(w, r, Right(w, c), e)
    && DissipatedAt(w, r, Above(w, c), e) && DissipatedAt(w, r, Below(w, c), e)
  }

  /** The first two `checkDissipate` calls of a spreading vent at `c`: left, then right. */
  function DissipateSides(w: World, c: Component, e: int): (r: World)
    requires ValidWorld(w) && e >= 0
    ensures ValidWorld(r) && Evolves(w, r) && FuelCellsKept(w, r) && r.pending == w.pending
  {
    var w1 := CheckDissipate(w, Left(w, c), e);
    var w2 := CheckDissipate(w1, Right(w1, c), e);
    EvolvesTrans(w, w1, w2);
    w2
  }

  /** The last two `checkDissipate` calls of a spreading vent at `c`: above, then below. */
  function DissipateEnds(w: World, c: Component, e: int): (r: World)
    requires ValidWorld(w) && e >= 0
    ensures ValidWorld(r) && Evolves(w, r) && FuelCellsKept(w, r) && r.pending == w.pending
  {
    var w1 := CheckDissipate(w, Above(w, c), e);
    var w2 := CheckDissipate(w1, Below(w1, c), e);
    EvolvesTrans(w, w1, w2);
    w2
  }

  /** The four `checkDissipate` calls of a spreading vent at `c`, in the order the source makes them. */
  function DissipateAround(w: World, c: Component, e: int): (r: World)
    requires ValidWorld(w) && e >= 0
    ensures ValidWorld(r) && Evolves(w, r) && FuelCellsKept(w, r) && r.pending == w.pending
  {
    var w2 := DissipateSides(w, c, e);
    EvolvesTrans(w, w2, DissipateEnds(w2, c, e));
    DissipateEnds(w2, c, e)
  }

  /** One dissipation on a world that so far changed only the cells `js`, at a cell outside them. */
  lemma DissipateStep(w: World, v: World, js: set<int>, o: Option<nat>, e: int)
    requires ValidWorld(w) && ValidWorld(v) && CellsKeptOutside(w, v, js) && e >= 0
    requires (o.Some? ==> Live(w, o.value)) && js !! Found(o)
    ensures o.Some? ==> Live(v, o.value)
    ensures CellsKeptOutside(w, CheckDissipate(v, o, e), js + Found(o))
    ensures DissipatedAt(w, CheckDissipate(v, o, e), o, e)
  {
    if o.Some? {
      assert o.value !in js;
      assert v.cells[o.value] == w.cells[o.value];
    }
  }

  /** A dissipated cell stays so while later steps change other cells only. */
  lemma DissipatedKept(w: World, v: World, r: World, o: Option<nat>, js: set<int>, e: int)
    requires DissipatedAt(w, v, o, e) && CellsKeptOutside(v, r, js) && Found(o) !! js
    ensures DissipatedAt(w, r, o, e)
  {
    if o.Some? {
      assert o.value !in js;
    }
  }

  /** A cell that a step found dissipated, measured against a world where it was still unchanged. */
  lemma DissipatedBase(w: World, v: World, r: World, o: Option<nat>, js: set<int>, e: int)
    requires CellsKeptOutside(w, v, js) && DissipatedAt(v, r, o, e) && Found(o) !! js
    ensures DissipatedAt(w, r, o, e)
  {
    if o.Some? {
      assert o.value !in js;
      assert v.cells[o.value] == w.cells[o.value];
    }
  }

  /** Two steps that change the cells `js` and then `ks` change only the cells of both. */
  lemma KeptTrans(w: World, v: World, r: World, js: set<int>, ks: set<int>)
    requires CellsKeptOutside(w, v, js) && CellsKeptOutside(v, r, ks)
    ensures CellsKeptOutside(w, r, js + ks)
  {
  }

  /**
    Two dissipations, the second at position (x, y) looked up after the
    first: the second lookup finds what it would have found before, and
    the two change exactly the cells each would alone.
  */
  lemma PairOfDissipations(w: World, o: Option<nat>, q: Option<nat>, x: int, y: int, e: int)
    requires ValidWorld(w) && e >= 0 && (o.Some? ==> Live(w, o.value)) && q == Get(w, x, y)
    requires 0 <= x < w.width && 0 <= y < w.height ==> y * w.width + x !in Found(o)
    requires Found(o) !! Found(q)
    ensures var a := CheckDissipate(w, o, e); var b := CheckDissipate(a, Get(a, x, y), e);
      Get(a, x, y) == q && CellsKeptOutside(w, b, Found(o) + Found(q))
      && DissipatedAt(w, b, o, e) && DissipatedAt(w, b, q, e)
  {
    hide CheckDissipate, Dissipated, Evolves, FuelCellsKept, CellsKeptOutside, Found;
    var a := CheckDissipate(w, o, e);
    DissipateStep(w, w, {}, o, e);
    assert {} + Found(o) == Found(o);
    LookupKept(w, a, Found(o), x, y);
    DissipateStep(w, a, Found(o), q, e);
    DissipatedKept(w, a, CheckDissipate(a, q, e), o, Found(q), e);
  }

  /** A pair of dissipations on the neighbours on either side of `c`, or above and below it. */
  predicate DissipatedPair(w: World, r: World, o: Option<nat>, q: Option<nat>, e: int)
  {
    CellsKeptOutside(w, r, Found(o) + Found(q)) && DissipatedAt(w, r, o, e) && DissipatedAt(w, r, q, e)
  }

  lemma DissipateSidesEffect(w: World, c: Component, e: int)
    requires ValidWorld(w) && e >= 0
    ensures DissipatedPair(w, DissipateSides(w, c, e), Left(w, c), Right(w, c), e)
  {
    NeighboursApart(w, c);
    PairOfDissipations(w, Left(w, c), Right(w, c), c.x + 1, c.y, e);
  }

  lemma DissipateEndsEffect(w: World, c: Component, e: int)
    requires ValidWorld(w) && e >= 0
    ensures DissipatedPair(w, DissipateEnds(w, c, e), Above(w, c), Below(w, c), e)
  {
    NeighboursApart(w, c);
    PairOfDissipations(w, Above(w, c), Below(w, c), c.x, c.y + 1, e);
  }

  /** The four dissipations of a spreading vent reach exactly its four neighbours. */
  lemma {:induction false} DissipateAroundEffect(w: World, c: Component, e: int)
    requires ValidWorld(w) && e >= 0
    ensures VentedAround(w, DissipateAround(w, c, e), c, e)
  {
    hide CheckDissipate, Dissipated, Evolves, FuelCellsKept, CellsKeptOutside, Found, DissipateSides, DissipateEnds;
    NeighboursApart(w, c);
    var l, rt, a, b := Left(w, c), Right(w, c), Above(w, c), Below(w, c);
    var w2 := DissipateSides(w, c, e);
    DissipateSidesEffect(w, c, e);
    EndsKept(w, w2, c);
    DissipateEndsEffect(w2, c, e);
    var w4 := DissipateEnds(w2, c, e);
    KeptTrans(w, w2, w4, Found(l) + Found(rt), Found(a) + Found(b));
    assert Found(a) !! Found(l) + Found(rt) && Found(b) !! Found(l) + Found(rt);
    DissipatedBase(w, w2, w4, a, Found(l) + Found(rt), e);
    DissipatedBase(w, w2, w4, b, Found(l) + Found(rt), e);
    DissipatedKept(w, w2, w4, l, Found(a) + Found(b), e);
    DissipatedKept(w, w2, w4, rt, Found(a) + Found(b), e);
    assert Found(l) + Found(rt) + (Found(a) + Found(b)) == NeighbourSet(w, c);
    assert DissipateAround(w, c, e) == w4;
  }

  /** `ComponentHeatVent::tick`: in the HEAT phase each of the four neighbours dissipates `heatFromEach`. */
  function SpreadVentTick(w: World, i: int, phase: SimPhase): (r: World)
    requires Holds(w, i) && w.cells[i].value.part.SpreadVent?
    ensures ValidWorld(r) && Evolves(w, r) && FuelCellsKept(w, r)
    ensures phase != PhaseHeatRun ==> r == w
    ensures r.pending == w.pending
    ensures phase == PhaseHeatRun ==> VentedAround(w, r, w.cells[i].value, w.cells[i].value.part.heatFromEach)
  {
    if phase != PhaseHeatRun then w
    else
      var c := w.cells[i].value;
      assert ValidComponent(c);
      ParameterFacts(c);
      DissipateAroundEffect(w, c, c.part.heatFromEach);
      DissipateAround(w, c, c.part.heatFromEach)
  }

  // ----- Heat acceptors (shared by exchangers and fuel cells) -----

  /** Live components that can store heat. */
  predicate AllAccept(w: World, acc: seq<nat>)
  {
    forall k :: 0 <= k < |acc| ==> Live(w, acc[k]) && CanStoreHeat(w.cells[acc[k]].value)
  }

  lemma AllAcceptConcat(w: World, a: seq<nat>, b: seq<nat>)
    requires AllAccept(w, a) && AllAccept(w, b)
    ensures AllAccept(w, a + b) && Present(w, a + b)
  {
    forall k | 0 <= k < |a + b|
      ensures Live(w, (a + b)[k]) && CanStoreHeat(w.cells[(a + b)[k]].value)
    {
      if k < |a| {
        assert (a + b)[k] == a[k];
      } else {
        assert (a + b)[k] == b[k - |a|];
      }
    }
  }

  function Acceptor(w: World, o: Option<nat>): (acc: seq<nat>)
    requires ValidWorld(w) && (o.Some? ==> Live(w, o.value))
    ensures |acc| <= 1 && AllAccept(w, acc) && Present(w, acc)
  {
    if o.Some? && CanStoreHeat(w.cells[o.value].value) then [o.value] else []
  }

  /** `checkHeatAcceptor` over left, right, above, below: the live neighbours that can store heat, in that order. */
  function HeatAcceptors(w: World, c: Component): (acc: seq<nat>)
    requires ValidWorld(w)
    ensures |acc| <= 4 && AllAccept(w, acc) && Present(w, acc)
  {
    var a, b := Acceptor(w, Left(w, c)), Acceptor(w, Right(w, c));
    var d, e := Acceptor(w, Above(w, c)), Acceptor(w, Below(w, c));
    AllAcceptConcat(w, a, b);
    AllAcceptConcat(w, a + b, d);
    AllAcceptConcat(w, a + b + d, e);
    a + b + d + e
  }

  // ----- HeatExchanger -----

  /** A double division, taken exactly. */
  function Quotient(a: int, b: int): real
    requires b != 0
  {
    a as real / b as real
  }

  /** The average of n values summing to total. */
  function Mean(total: real, n: int): real
    requires n > 0
  {
    total / n as real
  }

  /** The fill ratio `checkHeatAcceptor` adds for one acceptor: 0 when its maximum is not positive. */
  function Ratio(c: Component): real
  {
    var m := MaxHeatOf(c);
    if m <= 0 then 0.0 else Quotient(CurrentHeat(c), m)
  }

  function RatioSum(w: World, acc: seq<nat>): real
    requires Present(w, acc)
  {
    if acc == [] then 0.0 else Ratio(w.cells[acc[0]].value) + RatioSum(w, acc[1..])
  }

  /** The ratios of two acceptor lists add up. */
  lemma {:induction false} RatioSumAppend(w: World, a: seq<nat>, b: seq<nat>)
    requires Present(w, a) && Present(w, b)
    ensures Present(w, a + b) && RatioSum(w, a + b) == RatioSum(w, a) + RatioSum(w, b)
  {
    if a != [] {
      assert (a + b)[1..] == a[1..] + b;
      RatioSumAppend(w, a[1..], b);
    } else {
      assert a + b == b;
    }
  }

  /** The exchanger's clamp of a transfer to [-rate, rate]. */
  function Clamp(add: int, rate: int): (r: int)
    ensures rate >= 0 ==> -rate <= r <= rate
    ensures -rate <= add <= rate ==> r == add
    ensures rate >= 0 && add > rate ==> r == rate
    ensures rate >= 0 && add < -rate ==> r == -rate
  {
    var a := if add > rate then rate else add;
    if a < -rate then -rate else a
  }

  /**
    The transfer that brings a store of capacity `max` holding `heat` to
    the fill `med`: the source's `(int)` cast of `med * max` less `heat`,
    clamped to [-rate, rate].
  */
  function Share(med: real, max: int, heat: int, rate: int): (r: int)
    ensures rate >= 0 ==> -rate <= r <= rate
  {
    Clamp(TruncToInt(med * max as real) - heat, rate)
  }

  /** The cells an acceptor list names. */
  function Indices(acc: seq<nat>): set<int>
  {
    set k | 0 <= k < |acc| :: acc[k] as int
  }

  lemma IndicesSnoc(acc: seq<nat>)
    requires acc != []
    ensures Indices(acc) == Indices(acc[..|acc| - 1]) + {acc[|acc| - 1] as int}
  {
    var p := acc[..|acc| - 1];
    forall j | j in Indices(acc)
      ensures j in Indices(p) + {acc[|acc| - 1] as int}
    {
      var k :| 0 <= k < |acc| && j == acc[k] as int;
      if k < |acc| - 1 {
        assert p[k] == acc[k];
      }
    }
    forall j | j in Indices(p)
      ensures j in Indices(acc)
    {
      var k :| 0 <= k < |p| && j == p[k] as int;
      assert acc[k] == p[k];
    }
  }

  /** The heat moved to each partner and the heat each handed back, and the world after. */
  datatype Flow = Flow(world: World, heat: int, sent: seq<int>, returned: seq<int>)

  /**
    The exchanger's loop over its first acceptors, in order: each receives
    its clamped difference to the average fill, and the exchanger's running
    balance loses what was sent and regains what was handed back.
  */
  function Transfers(w: World, acc: seq<nat>, med: real, rate: int): (f: Flow)
    requires ValidWorld(w) && Present(w, acc) && rate >= 0
    ensures ValidWorld(f.world) && Evolves(w, f.world) && FuelCellsKept(w, f.world)
    ensures |f.sent| == |acc| && |f.returned| == |acc|
    ensures forall k :: 0 <= k < |acc| ==> -rate <= f.sent[k] <= rate
    ensures f.world.pending.reactorHeat == w.pending.reactorHeat && f.world.maxHeat == w.maxHeat
    ensures CellsKeptOutside(w, f.world, Indices(acc))
  {
    if acc == [] then Flow(w, 0, [], [])
    else
      var p := Transfers(w, acc[..|acc| - 1], med, rate);
      var j := acc[|acc| - 1];
      EvolvesAt(w, p.world, j);
      var comp := p.world.cells[j].value;
      var add := Share(med, MaxHeatOf(comp), CurrentHeat(comp), rate);
      var a := AlterHeatAt(p.world, j, add);
      EvolvesTrans(w, p.world, a.0);
      KeptTrans(w, p.world, a.0, Indices(acc[..|acc| - 1]), {j as int});
      IndicesSnoc(acc);
      Flow(a.0, p.heat - add + a.1, p.sent + [add], p.returned + [a.1])
  }

  /** The exchanger's balance after its transfer loop: all it got back minus all it sent. */
  lemma {:induction false} TransfersBalance(w: World, acc: seq<nat>, med: real, rate: int)
    requires ValidWorld(w) && Present(w, acc) && rate >= 0
    ensures var f := Transfers(w, acc, med, rate); f.heat == Sum(f.returned) - Sum(f.sent)
    decreases |acc|
  {
    if acc != [] {
      var p := Transfers(w, acc[..|acc| - 1], med, rate);
      TransfersBalance(w, acc[..|acc| - 1], med, rate);
      var f := Transfers(w, acc, med, rate);
      assert f.sent == p.sent + [f.sent[|acc| - 1]] && f.returned == p.returned + [f.returned[|acc| - 1]];
      SumSnoc(p.sent, f.sent[|acc| - 1]);
      SumSnoc(p.returned, f.returned[|acc| - 1]);
    }
  }

  /** What the exchanger computed before its own final `alterHeat`. */
  datatype Plan = Plan(world: World, myHeat: int, sent: seq<int>, returned: seq<int>, toCore: int)

  /** The acceptors an exchanger deals with: its heat acceptors when it exchanges with neighbours, none otherwise. */
  function ExchangeAcceptors(w: World, i: int): (acc: seq<nat>)
    requires Holds(w, i) && w.cells[i].value.part.Exchanger?
    ensures |acc| <= 4 && AllAccept(w, acc) && Present(w, acc)
    ensures w.cells[i].value.part.transferToAdjacent <= 0 ==> acc == []
  {
    if w.cells[i].value.part.transferToAdjacent > 0 then HeatAcceptors(w, w.cells[i].value) else []
  }

  /** The exchanger's own fill, plus the core's fill when it exchanges with the core. */
  function OwnAndCoreFill(w: World, i: int): real
    requires Holds(w, i) && w.cells[i].value.part.Exchanger?
  {
    var c := w.cells[i].value;
    assert ValidComponent(c);
    ParameterFacts(c);
    var own := Quotient(CurrentHeat(c), MaxHeatOf(c));
    if c.part.transferToCore > 0 then own + Quotient(w.pending.reactorHeat, w.maxHeat) else own
  }

  /** How many fills `med` averages: the exchanger, the core when it exchanges with it, and the acceptors. */
  function Partners(w: World, i: int): (n: int)
    requires Holds(w, i) && w.cells[i].value.part.Exchanger?
    ensures 1 <= n <= 6
  {
    (if w.cells[i].value.part.transferToCore > 0 then 2 else 1) + |ExchangeAcceptors(w, i)|
  }

  /** The average fill `med` over the exchanger itself, the core and its acceptors. */
  function Medium(w: World, i: int): real
    requires Holds(w, i) && w.cells[i].value.part.Exchanger?
  {
    Mean(OwnAndCoreFill(w, i) + RatioSum(w, ExchangeAcceptors(w, i)), Partners(w, i))
  }

  /** The exchanger's transfers with its neighbours, none when it does not exchange with them. */
  function AdjacentFlow(w: World, i: int): (f: Flow)
    requires Holds(w, i) && w.cells[i].value.part.Exchanger?
    ensures ValidWorld(f.world) && Evolves(w, f.world) && FuelCellsKept(w, f.world)
    ensures f.world.pending.reactorHeat == w.pending.reactorHeat && f.world.maxHeat == w.maxHeat
    ensures CellsKeptOutside(w, f.world, Indices(ExchangeAcceptors(w, i)))
    ensures var x := w.cells[i].value.part;
      |f.sent| == |f.returned| <= 4 && (x.transferToAdjacent <= 0 ==> f.sent == [] && f.heat == 0)
      && forall k :: 0 <= k < |f.sent| ==> -x.transferToAdjacent <= f.sent[k] <= x.transferToAdjacent
  {
    var x := w.cells[i].value.part;
    assert ValidComponent(w.cells[i].value);
    if x.transferToAdjacent > 0 then Transfers(w, ExchangeAcceptors(w, i), Medium(w, i), x.transferToAdjacent)
    else Flow(w, 0, [], [])
  }

  /**
    `HeatExchanger::tick` up to its last line: the clamped transfers to
    the acceptors, then the core transfer. Its own balance is the negated
    net transfer.
  */
  function ExchangerPlan(w: World, i: int): (p: Plan)
    requires Holds(w, i) && w.cells[i].value.part.Exchanger?
    ensures ValidWorld(p.world) && Evolves(w, p.world) && FuelCellsKept(w, p.world)
    ensures var x := w.cells[i].value.part;
      (x.transferToCore <= 0 ==> p.toCore == 0)
      && -x.transferToCore <= p.toCore <= x.transferToCore
      && (x.transferToAdjacent <= 0 ==> p.sent == [])
      && |p.sent| == |p.returned| <= 4
      && (forall k :: 0 <= k < |p.sent| ==> -x.transferToAdjacent <= p.sent[k] <= x.transferToAdjacent)
    ensures p.world.pending.reactorHeat == w.pending.reactorHeat + p.toCore
    ensures CellsKeptOutside(w, p.world, Indices(ExchangeAcceptors(w, i)))
  {
    var x := w.cells[i].value.part;
    assert ValidComponent(w.cells[i].value);
    ParameterFacts(w.cells[i].value);
    var f := AdjacentFlow(w, i);
    if x.transferToCore > 0 then
      var w1 := f.world;
      var add := Share(Medium(w, i), w1.maxHeat, w1.pending.reactorHeat, x.transferToCore);
      var w2 := SetHeat(w1, w1.pending.reactorHeat + add);
      EvolvesTrans(w, w1, w2);
      Plan(w2, f.heat - add, f.sent, f.returned, add)
    else
      Plan(f.world, f.heat, f.sent, f.returned, 0)
  }

  /**
    The exchanger conserves heat: its own balance is what the acceptors
    handed back, less what it sent them and what it sent to the core.
  */
  lemma ExchangerBalance(w: World, i: int)
    requires Holds(w, i) && w.cells[i].value.part.Exchanger?
    ensures var p := ExchangerPlan(w, i); p.myHeat == Sum(p.returned) - Sum(p.sent) - p.toCore
  {
    var x := w.cells[i].value.part;
    assert ValidComponent(w.cells[i].value);
    if x.transferToAdjacent > 0 {
      TransfersBalance(w, ExchangeAcceptors(w, i), Medium(w, i), x.transferToAdjacent);
    }
  }

  /** `HeatExchanger::tick`: the plan, then one `alterHeat` of the exchanger by its balance. It runs in both phases. */
  function ExchangerTick(w: World, i: int): (r: World)
    requires Holds(w, i) && w.cells[i].value.part.Exchanger?
    ensures ValidWorld(r) && Evolves(w, r) && FuelCellsKept(w, r)
    ensures CellsKeptOutside(w, r, Indices(ExchangeAcceptors(w, i)) + {i})
    ensures r.cells[i].Some? && (i !in Indices(ExchangeAcceptors(w, i)) ==>
      r.cells[i].value.part == AlterPart(w.cells[i].value.part, ExchangerPlan(w, i).myHeat).part)
  {
    var p := ExchangerPlan(w, i);
    HoldsKept(w, p.world, i);
    var r := AlterHeatAt(p.world, i, p.myHeat).0;
    EvolvesTrans(w, p.world, r);
    KeptTrans(w, p.world, r, Indices(ExchangeAcceptors(w, i)), {i});
    r
  }

  lemma IndicesConcat(a: seq<nat>, b: seq<nat>)
    ensures Indices(a + b) == Indices(a) + Indices(b)
  {
    forall j | j in Indices(a + b)
      ensures j in Indices(a) + Indices(b)
    {
      var k :| 0 <= k < |a + b| && j == (a + b)[k] as int;
      if k < |a| {
        assert (a + b)[k] == a[k];
      } else {
        assert (a + b)[k] == b[k - |a|];
      }
    }
    forall j | j in Indices(a) + Indices(b)
      ensures j in Indices(a + b)
    {
      if j in Indices(a) {
        var k :| 0 <= k < |a| && j == a[k] as int;
        assert (a + b)[k] == a[k];
      } else {
        var k :| 0 <= k < |b| && j == b[k] as int;
        assert (a + b)[|a| + k] == b[k];
      }
    }
  }

  /** A neighbour admitted as an acceptor is the cell its lookup found. */
  lemma AcceptorFound(w: World, o: Option<nat>)
    requires ValidWorld(w) && (o.Some? ==> Live(w, o.value))
    ensures Indices(Acceptor(w, o)) <= Found(o)
  {
    var acc := Acceptor(w, o);
    forall j | j in Indices(acc)
      ensures j in Found(o)
    {
      var k :| 0 <= k < |acc| && j == acc[k] as int;
    }
  }

  /** The cells an exchanger deals with are among the cells its four neighbour lookups find. */
  lemma AcceptorsAreNeighbours(w: World, i: int)
    requires Holds(w, i) && w.cells[i].value.part.Exchanger?
    ensures var c := w.cells[i].value;
      Indices(ExchangeAcceptors(w, i)) <= Found(Left(w, c)) + Found(Right(w, c)) + Found(Above(w, c)) + Found(Below(w, c))
  {
    var c := w.cells[i].value;
    var a, b := Acceptor(w, Left(w, c)), Acceptor(w, Right(w, c));
    var d, e := Acceptor(w, Above(w, c)), Acceptor(w, Below(w, c));
    AcceptorFound(w, Left(w, c));
    AcceptorFound(w, Right(w, c));
    AcceptorFound(w, Above(w, c));
    AcceptorFound(w, Below(w, c));
    IndicesConcat(a, b);
    IndicesConcat(a + b, d);
    IndicesConcat(a + b + d, e);
    if ExchangeAcceptors(w, i) != [] {
      assert ExchangeAcceptors(w, i) == a + b + d + e;
    } else {
      assert Indices([]) == {};
    }
  }

  /**
    An exchanger placed at its own cell never counts itself among its
    acceptors, so its tick ends with the one `alterHeat` of its own store
    by its balance: what the acceptors handed back, less what it sent them
    and the core.
  */
  lemma ExchangerAltersItself(w: World, i: int)
    requires Holds(w, i) && w.cells[i].value.part.Exchanger? && AtOwnCell(w, i)
    ensures var c := w.cells[i].value; var p := ExchangerPlan(w, i); var a := AlterPart(c.part, p.myHeat);
      var r := ExchangerTick(w, i);
      i !in Indices(ExchangeAcceptors(w, i))
      && r.cells[i] == Some(c.(part := a.part, pendingDestroyed := c.pendingDestroyed || (a.destroy && !w.ignoreComponentDestroyed)))
      && p.myHeat == Sum(p.returned) - Sum(p.sent) - p.toCore
  {
    AcceptorsAreNeighbours(w, i);
    OwnCellApart(w, i);
    ExchangerBalance(w, i);
    var p := ExchangerPlan(w, i);
    assert p.world.cells[i] == w.cells[i];
  }

  // ----- UraniumCell -----

  /** The cell a lookup found accepts a neuron pulse: a fuel cell not yet spent, or a reflector. */
  predicate TakesPulse(w: World, o: Option<nat>)
  {
    o.Some? && o.value < |w.cells| && w.cells[o.value].Some?
    && var p := w.cells[o.value].value.part; (p.FuelCell? && p.pendingUsage <= p.maxUsage) || p.Reflector?
  }

  function OneIf(b: bool): int
  {
    if b then 1 else 0
  }

  /** How many of the four neighbours of `c` accept a pulse. */
  function AcceptingNeighbours(w: World, c: Component): (n: int)
    requires ValidWorld(w)
    ensures 0 <= n <= 4
    ensures n == 0 <==> !TakesPulse(w, Left(w, c)) && !TakesPulse(w, Right(w, c)) && !TakesPulse(w, Above(w, c)) && !TakesPulse(w, Below(w, c))
  {
    OneIf(TakesPulse(w, Left(w, c))) + OneIf(TakesPulse(w, Right(w, c)))
    + OneIf(TakesPulse(w, Above(w, c))) + OneIf(TakesPulse(w, Below(w, c)))
  }

  /**
    The effect of `n` accepted pulses that reached the cells `js`: nothing
    outside those cells changes; in the POWER phase the world gains exactly
    5 EU per pulse and nothing else, in the HEAT phase the pending state
    changes at most in its failure flag.
  */
  predicate PulsesEffect(w: World, r: World, phase: SimPhase, js: set<int>, n: int)
  {
    CellsKeptOutside(w, r, js)
    && (phase == PhasePower ==> r == w.(pending := w.pending.(euGenerated := w.pending.euGenerated + EU_PER_PULSE * n)))
    && (phase == PhaseHeatRun ==> r.pending == w.pending.(componentFailed := r.pending.componentFailed))
  }

  lemma PulsesTrans(w: World, v: World, r: World, phase: SimPhase, js: set<int>, ks: set<int>, m: int, n: int)
    requires PulsesEffect(w, v, phase, js, m) && PulsesEffect(v, r, phase, ks, n)
    ensures PulsesEffect(w, r, phase, js + ks, m + n)
  {
  }

  /** `UraniumCell::checkPulseable`: 1 when a live neighbour accepts the pulse. */
  function CheckPulseable(w: World, o: Option<nat>, phase: SimPhase): (r: (World, int))
    requires ValidWorld(w) && (o.Some? ==> Live(w, o.value))
    ensures ValidWorld(r.0) && Evolves(w, r.0) && FuelCellsKept(w, r.0)
    ensures r.1 == OneIf(TakesPulse(w, o))
    ensures r.1 == 1 <==> o.Some? && AcceptPulseAt(w, o.value, phase).1
    ensures PulsesEffect(w, r.0, phase, Found(o), r.1)
  {
    match o
    case None => (w, 0)
    case Some(j) =>
      var p := AcceptPulseAt(w, j, phase);
      (p.0, if p.1 then 1 else 0)
  }

  /** A pulse on a world that so far changed only the cells `js`, at a cell outside them. */
  lemma PulseStep(w: World, v: World, phase: SimPhase, js: set<int>, n: int, o: Option<nat>)
    requires ValidWorld(w) && ValidWorld(v) && PulsesEffect(w, v, phase, js, n)
    requires (o.Some? ==> Live(w, o.value)) && js !! Found(o)
    ensures o.Some? ==> Live(v, o.value)
    ensures o.Some? ==> CheckPulseable(v, o, phase).1 == OneIf(TakesPulse(w, o))
    ensures o.Some? ==> PulsesEffect(w, CheckPulseable(v, o, phase).0, phase, js + Found(o), n + OneIf(TakesPulse(w, o)))
  {
    if o.Some? {
      assert o.value !in js;
      assert v.cells[o.value] == w.cells[o.value];
      PulsesTrans(w, v, CheckPulseable(v, o, phase).0, phase, js, Found(o), n, OneIf(TakesPulse(w, o)));
    }
  }

  /** The `checkPulseable` calls on the left and right neighbours, each looked up after the previous pulse. */
  function SidePulses(w: World, c: Component, phase: SimPhase): (r: (World, int))
    requires ValidWorld(w)
    ensures ValidWorld(r.0) && Evolves(w, r.0) && FuelCellsKept(w, r.0) && 0 <= r.1 <= 2
    ensures r.1 == OneIf(TakesPulse(w, Left(w, c))) + OneIf(TakesPulse(w, Right(w, c)))
    ensures PulsesEffect(w, r.0, phase, Found(Left(w, c)) + Found(Right(w, c)), r.1)
  {
    var a := CheckPulseable(w, Left(w, c), phase);
    var b := CheckPulseable(a.0, Right(a.0, c), phase);
    EvolvesTrans(w, a.0, b.0);
    PairOfPulses(w, c, phase, Left(w, c), Right(w, c), c.x + 1, c.y);
    (b.0, a.1 + b.1)
  }

  /**
    Two pulses, the second at position (x, y) looked up after the first:
    the second lookup finds what it would have found before, and the two
    count and change what each would alone.
  */
  lemma PairOfPulses(w: World, c: Component, phase: SimPhase, o: Option<nat>, q: Option<nat>, x: int, y: int)
    requires ValidWorld(w) && (o.Some? ==> Live(w, o.value)) && q == Get(w, x, y)
    requires 0 <= x < w.width && 0 <= y < w.height ==> y * w.width + x !in Found(o)
    requires Found(o) !! Found(q)
    ensures var a := CheckPulseable(w, o, phase); var b := CheckPulseable(a.0, Get(a.0, x, y), phase);
      Get(a.0, x, y) == q && b.1 == OneIf(TakesPulse(w, q))
      && PulsesEffect(w, b.0, phase, Found(o) + Found(q), a.1 + b.1)
  {
    var a := CheckPulseable(w, o, phase);
    assert PulsesEffect(w, w, phase, {}, 0);
    PulseStep(w, w, phase, {}, 0, o);
    assert {} + Found(o) == Found(o);
    LookupKept(w, a.0, Found(o), x, y);
    if q.Some? {
      PulseStep(w, a.0, phase, Found(o), a.1, q);
    } else {
      assert Found(q) == {};
      assert Found(o) + Found(q) == Found(o);
    }
  }

  /** The `checkPulseable` calls on the neighbours above and below. */
  function EndPulses(w: World, c: Component, phase: SimPhase): (r: (World, int))
    requires ValidWorld(w)
    ensures ValidWorld(r.0) && Evolves(w, r.0) && FuelCellsKept(w, r.0) && 0 <= r.1 <= 2
    ensures r.1 == OneIf(TakesPulse(w, Above(w, c))) + OneIf(TakesPulse(w, Below(w, c)))
    ensures PulsesEffect(w, r.0, phase, Found(Above(w, c)) + Found(Below(w, c)), r.1)
  {
    var a := CheckPulseable(w, Above(w, c), phase);
    var b := CheckPulseable(a.0, Below(a.0, c), phase);
    EvolvesTrans(w, a.0, b.0);
    NeighboursApart(w, c);
    NeighbourCells(w, c);
    PairOfPulses(w, c, phase, Above(w, c), Below(w, c), c.x, c.y + 1);
    (b.0, a.1 + b.1)
  }

  /** The four `checkPulseable` calls on left, right, above and below; the result counts the neighbours that accepted. */
  function NeighbourPulses(w: World, c: Component, phase: SimPhase): (r: (World, int))
    requires ValidWorld(w)
    ensures ValidWorld(r.0) && Evolves(w, r.0) && FuelCellsKept(w, r.0) && 0 <= r.1 <= 4
    ensures r.1 == AcceptingNeighbours(w, c)
    ensures PulsesEffect(w, r.0, phase, NeighbourSet(w, c), r.1)
  {
    var h := SidePulses(w, c, phase);
    var v := EndPulses(h.0, c, phase);
    EvolvesTrans(w, h.0, v.0);
    EndsAfterSides(w, h.0, c, phase);
    (v.0, h.1 + v.1)
  }

  /** A world that changed only the side neighbours of `c` finds the same cells above and below it. */
  lemma EndsKept(w: World, v: World, c: Component)
    requires ValidWorld(w) && ValidWorld(v) && CellsKeptOutside(w, v, Found(Left(w, c)) + Found(Right(w, c)))
    ensures Above(v, c) == Above(w, c) && Below(v, c) == Below(w, c)
    ensures Above(w, c).Some? ==> v.cells[Above(w, c).value] == w.cells[Above(w, c).value]
    ensures Below(w, c).Some? ==> v.cells[Below(w, c).value] == w.cells[Below(w, c).value]
  {
    NeighboursApart(w, c);
    LookupKept(w, v, Found(Left(w, c)) + Found(Right(w, c)), c.x, c.y - 1);
    LookupKept(w, v, Found(Left(w, c)) + Found(Right(w, c)), c.x, c.y + 1);
  }

  /** After the side pulses the end lookups find, and count, what they would have found in `w`. */
  lemma EndsAfterSides(w: World, v: World, c: Component, phase: SimPhase)
    requires ValidWorld(w) && ValidWorld(v)
    requires PulsesEffect(w, v, phase, Found(Left(w, c)) + Found(Right(w, c)), OneIf(TakesPulse(w, Left(w, c))) + OneIf(TakesPulse(w, Right(w, c))))
    ensures var e := EndPulses(v, c, phase);
      Above(v, c) == Above(w, c) && Below(v, c) == Below(w, c)
      && OneIf(TakesPulse(w, Left(w, c))) + OneIf(TakesPulse(w, Right(w, c))) + e.1 == AcceptingNeighbours(w, c)
      && PulsesEffect(w, e.0, phase, NeighbourSet(w, c), AcceptingNeighbours(w, c))
  {
    hide EndPulses, CheckPulseable, Evolves, FuelCellsKept, CellsKeptOutside, Found, ValidCells;
    var l, rt, a, b := Found(Left(w, c)), Found(Right(w, c)), Found(Above(w, c)), Found(Below(w, c));
    NeighboursApart(w, c);
    EndsKept(w, v, c);
    var e := EndPulses(v, c, phase);
    PulsesTrans(w, v, e.0, phase, l + rt, a + b, OneIf(TakesPulse(w, Left(w, c))) + OneIf(TakesPulse(w, Right(w, c))), e.1);
    assert l + rt + (a + b) == NeighbourSet(w, c);
  }

  predicate FuelAt(w: World, i: int)
  {
    Holds(w, i) && w.cells[i].value.part.FuelCell?
  }

  lemma FuelAtSize(w: World, i: int)
    requires FuelAt(w, i)
    ensures w.cells[i].value.part.numCells >= 1
  {
    assert ValidComponent(w.cells[i].value);
    FuelCellSize(w.cells[i].value);
  }

  /** The POWER-phase loop in which a sub-cell pulses itself `n` times. */
  function SelfPulses(w: World, i: int, phase: SimPhase, n: int): (r: World)
    requires FuelAt(w, i)
    ensures ValidWorld(r) && Evolves(w, r) && FuelCellsKept(w, r)
    ensures r == w.(pending := r.pending)
    ensures PulsesEffect(w, r, phase, {}, if n > 0 && TakesPulse(w, Some(i)) then n else 0)
    decreases n
  {
    if n <= 0 then w
    else
      var w1 := SelfPulses(w, i, phase, n - 1);
      HoldsKept(w, w1, i);
      var r := AcceptPulseAt(w1, i, phase).0;
      EvolvesTrans(w, w1, r);
      assert PulsesEffect(w1, r, phase, {}, OneIf(TakesPulse(w, Some(i))));
      PulsesTrans(w, w1, r, phase, {}, {}, if n - 1 > 0 && TakesPulse(w, Some(i)) then n - 1 else 0, OneIf(TakesPulse(w, Some(i))));
      r
  }

  /**
    The split loop of `UraniumCell::tick` over its first k acceptors: each
    receives the remaining heat divided by the number of acceptors left (C++
    division), and what it hands back is added to the remaining heat.
  */
  function SplitHeat(w: World, acc: seq<nat>, heat: int, k: nat): (f: Flow)
    requires ValidWorld(w) && Present(w, acc) && k <= |acc|
    ensures ValidWorld(f.world) && Evolves(w, f.world) && FuelCellsKept(w, f.world)
    ensures |f.sent| == k && |f.returned| == k
    ensures f.world.pending == w.pending.(componentFailed := f.world.pending.componentFailed)
    ensures f.world.maxHeat == w.maxHeat
  {
    if k == 0 then Flow(w, heat, [], [])
    else
      var p := SplitHeat(w, acc, heat, k - 1);
      var j := acc[k - 1];
      EvolvesAt(w, p.world, j);
      var dheat := CDiv(p.heat, |acc| - (k - 1));
      var a := AlterHeatAt(p.world, j, dheat);
      EvolvesTrans(w, p.world, a.0);
      Flow(a.0, p.heat - dheat + a.1, p.sent + [dheat], p.returned + [a.1])
  }

  /**
    The split conserves heat: what remains is the produced heat less all
    that was handed out plus all that came back. The last acceptor is
    offered everything that is left, so after the full loop only what it
    handed back remains.
  */
  lemma {:induction false} SplitHeatBalance(w: World, acc: seq<nat>, heat: int, k: nat)
    requires ValidWorld(w) && Present(w, acc) && k <= |acc|
    ensures var f := SplitHeat(w, acc, heat, k); f.heat == heat - Sum(f.sent) + Sum(f.returned)
    ensures var f := SplitHeat(w, acc, heat, k); k == |acc| > 0 ==> f.heat == f.returned[k - 1]
  {
    if k > 0 {
      var p := SplitHeat(w, acc, heat, k - 1);
      SplitHeatBalance(w, acc, heat, k - 1);
      var f := SplitHeat(w, acc, heat, k);
      assert f.sent == p.sent + [f.sent[k - 1]] && f.returned == p.returned + [f.returned[k - 1]];
      SumSnoc(p.sent, f.sent[k - 1]);
      SumSnoc(p.returned, f.returned[k - 1]);
    }
  }

  /**
    When every acceptor takes its share in full (hands nothing back) the
    whole heat is spread over them, and nothing is left for the reactor
    unless there is no acceptor at all.
  */
  predicate NoneReturned(f: Flow)
  {
    forall k :: 0 <= k < |f.returned| ==> f.returned[k] == 0
  }

  lemma SplitWithoutResidue(w: World, acc: seq<nat>, heat: int)
    requires ValidWorld(w) && Present(w, acc) && NoneReturned(SplitHeat(w, acc, heat, |acc|))
    ensures var f := SplitHeat(w, acc, heat, |acc|);
      f.heat == (if acc == [] then heat else 0) && Sum(f.sent) == heat - f.heat
  {
    SplitHeatBalance(w, acc, heat, |acc|);
    ZeroSum(SplitHeat(w, acc, heat, |acc|).returned);
  }

  lemma {:induction false} ZeroSum(s: seq<int>)
    requires forall k :: 0 <= k < |s| ==> s[k] == 0
    ensures Sum(s) == 0
  {
    if s != [] {
      ZeroSum(s[..|s| - 1]);
    }
  }

  /** A sub-cell in the POWER phase: the fuel cell pulses itself 1 + numCells/2 times, then its four neighbours. */
  function PowerSubCell(w: World, i: int, phase: SimPhase): (r: World)
    requires FuelAt(w, i)
    ensures ValidWorld(r) && Evolves(w, r) && FuelCellsKept(w, r)
    ensures var c := w.cells[i].value;
      PulsesEffect(w, r, phase, NeighbourSet(w, c), SelfCount(c) + AcceptingNeighbours(w, c))
  {
    var c := w.cells[i].value;
    var w1 := SelfPulses(w, i, phase, 1 + CDiv(c.part.numCells, 2));
    var w2 := NeighbourPulses(w1, c, phase).0;
    EvolvesTrans(w, w1, w2);
    SelfThenNeighbours(w, i, phase);
    w2
  }

  lemma SelfThenNeighbours(w: World, i: int, phase: SimPhase)
    requires FuelAt(w, i)
    ensures var c := w.cells[i].value; var w1 := SelfPulses(w, i, phase, 1 + CDiv(c.part.numCells, 2));
      PulsesEffect(w, NeighbourPulses(w1, c, phase).0, phase, NeighbourSet(w, c), SelfCount(c) + AcceptingNeighbours(w, c))
  {
    hide SelfPulses, NeighbourPulses, Evolves, FuelCellsKept, ValidCells, PulsesEffect;
    var c := w.cells[i].value;
    FuelAtSize(w, i);
    var n := 1 + CDiv(c.part.numCells, 2);
    var w1 := SelfPulses(w, i, phase, n);
    assert (if n > 0 && TakesPulse(w, Some(i)) then n else 0) == SelfCount(c);
    var w2 := NeighbourPulses(w1, c, phase).0;
    NeighboursKept(w, w1, c);
    PulsesTrans(w, w1, w2, phase, {}, NeighbourSet(w, c), SelfCount(c), AcceptingNeighbours(w, c));
    assert {} + NeighbourSet(w, c) == NeighbourSet(w, c);
  }

  /** How many of its own pulses a fuel cell accepts in one sub-cell: 1 + numCells/2, none once it is spent. */
  function SelfCount(c: Component): int
    requires c.part.FuelCell?
  {
    if c.part.pendingUsage <= c.part.maxUsage then 1 + CDiv(c.part.numCells, 2) else 0
  }

  /** A world whose cells are those of `w` finds, and counts, the same neighbours. */
  lemma NeighboursKept(w: World, v: World, c: Component)
    requires ValidWorld(w) && ValidWorld(v) && v == w.(pending := v.pending)
    ensures NeighbourSet(v, c) == NeighbourSet(w, c) && AcceptingNeighbours(v, c) == AcceptingNeighbours(w, c)
  {
    hide ValidWorld;
    assert v.cells == w.cells && v.width == w.width && v.height == w.height;
    assert Get(v, c.x - 1, c.y) == Get(w, c.x - 1, c.y) && Get(v, c.x + 1, c.y) == Get(w, c.x + 1, c.y);
    assert Get(v, c.x, c.y - 1) == Get(w, c.x, c.y - 1) && Get(v, c.x, c.y + 1) == Get(w, c.x, c.y + 1);
    assert Left(v, c) == Left(w, c) && Right(v, c) == Right(w, c) && Above(v, c) == Above(w, c) && Below(v, c) == Below(w, c);
    hide Get, Left, Right, Above, Below;
    assert TakesPulse(v, Left(w, c)) == TakesPulse(w, Left(w, c)) && TakesPulse(v, Right(w, c)) == TakesPulse(w, Right(w, c));
    assert TakesPulse(v, Above(w, c)) == TakesPulse(w, Above(w, c)) && TakesPulse(v, Below(w, c)) == TakesPulse(w, Below(w, c));
  }

  /** The heat a sub-cell produces in the HEAT phase, counting the neighbours that accept its pulses. */
  function SubCellOutput(w: World, i: int): int
    requires FuelAt(w, i)
  {
    var c := w.cells[i].value;
    FuelAtSize(w, i);
    SubCellHeat(c.part.numCells, AcceptingNeighbours(w, c))
  }

  /**
    A sub-cell in the HEAT phase up to its last line: pulse the four
    neighbours, produce 4 * triangular(1 + numCells/2 + accepted) heat and
    split it over the heat-storing neighbours.
  */
  function HeatSplit(w: World, i: int): (f: Flow)
    requires FuelAt(w, i)
    ensures ValidWorld(f.world) && Evolves(w, f.world) && FuelCellsKept(w, f.world)
    ensures |f.sent| == |f.returned| == |HeatAcceptors(NeighbourPulses(w, w.cells[i].value, PhaseHeatRun).0, w.cells[i].value)| <= 4
    ensures f.heat == SubCellOutput(w, i) - Sum(f.sent) + Sum(f.returned)
    ensures f.world.pending.reactorHeat == w.pending.reactorHeat && f.world.maxHeat == w.maxHeat
  {
    var c := w.cells[i].value;
    assert ValidComponent(c);
    ParameterFacts(c);
    var n := NeighbourPulses(w, c, PhaseHeatRun);
    var acc := HeatAcceptors(n.0, c);
    var f := SplitHeat(n.0, acc, SubCellHeat(c.part.numCells, n.1), |acc|);
    EvolvesTrans(w, n.0, f.world);
    SplitHeatBalance(n.0, acc, SubCellHeat(c.part.numCells, n.1), |acc|);
    f
  }

  /** A sub-cell in the HEAT phase: the split, then a positive remainder goes to the reactor. */
  function HeatSubCell(w: World, i: int): (r: World)
    requires FuelAt(w, i)
    ensures ValidWorld(r) && Evolves(w, r) && FuelCellsKept(w, r)
    ensures var f := HeatSplit(w, i);
      r.cells == f.world.cells && r.pending.reactorHeat == w.pending.reactorHeat + (if f.heat > 0 then f.heat else 0)
    ensures HeatSplit(w, i).heat <= 0 ==> r == HeatSplit(w, i).world
  {
    var f := HeatSplit(w, i);
    if f.heat > 0 then
      var r := AddHeat(f.world, f.heat);
      EvolvesTrans(w, f.world, r);
      r
    else f.world
  }

  /**
    A sub-cell in the HEAT phase conserves heat: what it produces for its
    pulses is what it hands its acceptors, less what they hand back, plus
    what the reactor gains; the reactor never loses heat to it.
  */
  lemma SubCellHeatBalance(w: World, i: int)
    requires FuelAt(w, i)
    ensures var f := HeatSplit(w, i);
      var gain := HeatSubCell(w, i).pending.reactorHeat - w.pending.reactorHeat;
      gain >= 0 && (f.heat >= 0 ==> SubCellOutput(w, i) == Sum(f.sent) - Sum(f.returned) + gain)
  {
  }

  /** One pass of the `cellNum` loop of `UraniumCell::tick`. */
  function SubCell(w: World, i: int, phase: SimPhase): (r: World)
    requires FuelAt(w, i)
    ensures ValidWorld(r) && Evolves(w, r) && FuelCellsKept(w, r)
  {
    if phase != PhaseHeatRun then PowerSubCell(w, i, phase) else HeatSubCell(w, i)
  }

  /** The `cellNum` loop: the first n sub-cells. */
  function SubCells(w: World, i: int, phase: SimPhase, n: int): (r: World)
    requires FuelAt(w, i)
    ensures ValidWorld(r) && Evolves(w, r) && FuelCellsKept(w, r)
    ensures r.cells[i] == w.cells[i]
    decreases n
  {
    if n <= 0 then w
    else
      var w1 := SubCells(w, i, phase, n - 1);
      var r := SubCell(w1, i, phase);
      FuelKeptAt(w1, r, i);
      r
  }

  /** Pass k + 1 of the loop starts from the world after k passes, which still holds the fuel cell. */
  lemma SubCellsStep(w: World, i: int, phase: SimPhase, k: nat)
    requires FuelAt(w, i)
    ensures FuelAt(SubCells(w, i, phase, k), i)
    ensures SubCells(w, i, phase, k + 1) == SubCell(SubCells(w, i, phase, k), i, phase)
  {
    FuelKeptAt(w, SubCells(w, i, phase, k), i);
  }

  /** `pendingUsage++` of the fuel cell in cell i. */
  function UseFuel(w: World, i: int): (r: World)
    requires FuelAt(w, i)
    ensures ValidWorld(r) && Evolves(w, r)
    ensures var c := w.cells[i].value;
      r == w.(cells := w.cells[i := Some(c.(part := FuelCell(c.part.numCells, c.part.lastUsage, c.part.pendingUsage + 1, c.part.maxUsage)))])
  {
    var c := w.cells[i].value;
    var c1 := c.(part := FuelCell(c.part.numCells, c.part.lastUsage, c.part.pendingUsage + 1, c.part.maxUsage));
    assert ValidComponent(c);
    ReplaceEvolves(w, i, c1);
    w.(cells := w.cells[i := Some(c1)])
  }

  lemma UseFuelCell(w: World, i: int, c: Component)
    requires FuelAt(w, i) && w.cells[i] == Some(c)
    ensures UseFuel(w, i).cells[i] == Some(c.(part := FuelCell(c.part.numCells, c.part.lastUsage, c.part.pendingUsage + 1, c.part.maxUsage)))
  {
  }

  /**
    `UraniumCell::tick`. A spent fuel cell (usage above its maximum) does
    nothing; otherwise it runs numCells sub-cells, and its usage grows by
    exactly one in the HEAT phase, whatever numCells is, and stays as it was
    in the POWER phase.
  */
  function FuelCellTick(w: World, i: int, phase: SimPhase): (r: World)
    requires FuelAt(w, i)
    ensures ValidWorld(r) && Evolves(w, r)
    ensures var c := w.cells[i].value;
      if c.part.pendingUsage > c.part.maxUsage then r == w
      else if phase == PhaseHeatRun then r.cells[i] == Some(c.(part := FuelCell(c.part.numCells, c.part.lastUsage, c.part.pendingUsage + 1, c.part.maxUsage)))
      else r.cells[i] == w.cells[i]
  {
    var c := w.cells[i].value;
    if c.part.pendingUsage > c.part.maxUsage then w
    else
      var w1 := SubCells(w, i, phase, c.part.numCells);
      assert w1.cells[i] == Some(c);
      if phase == PhaseHeatRun then
        UseFuelCell(w1, i, c);
        var r := UseFuel(w1, i);
        EvolvesTrans(w, w1, r);
        r
      else w1
  }

  // ----- ReactorPlating -----

  /** `ReactorPlating::tick`: in the HEAT phase the reactor's capacity grows by the plating's addition. */
  function PlatingTick(w: World, i: int, phase: SimPhase): (r: World)
    requires Holds(w, i) && w.cells[i].value.part.Plating?
    ensures ValidWorld(r) && Evolves(w, r)
    ensures r == w.(maxHeat := r.maxHeat)
    ensures r.maxHeat == if phase == PhaseHeatRun then w.maxHeat + w.cells[i].value.part.heatAddition else w.maxHeat
  {
    if phase == PhaseHeatRun then
      assert ValidComponent(w.cells[i].value);
      ParameterFacts(w.cells[i].value);
      w.(maxHeat := w.maxHeat + w.cells[i].value.part.heatAddition)
    else w
  }

  // ----- Dispatch, phases and the tick -----

  /** Virtual `tick`: coolant cells, condensators and reflectors do nothing. */
  function TickComponent(w: World, i: int, phase: SimPhase): (r: World)
    requires Holds(w, i)
    ensures ValidWorld(r) && Evolves(w, r)
  {
    match w.cells[i].value.part
    case Vent(_, _, _) => VentTick(w, i, phase)
    case SpreadVent(_) => SpreadVentTick(w, i, phase)
    case Exchanger(_, _, _) => ExchangerTick(w, i)
    case FuelCell(_, _, _, _) => FuelCellTick(w, i, phase)
    case Plating(_) => PlatingTick(w, i, phase)
    case _ => w
  }

  /** One step of `runTickPhase`: cell k ticks when it holds a live component. */
  function TickAt(w: World, k: int, phase: SimPhase): (r: World)
    requires ValidWorld(w)
    ensures ValidWorld(r) && Evolves(w, r)
    ensures !Live(w, k) ==> r == w
  {
    if Live(w, k) then TickComponent(w, k, phase) else w
  }

  /** `runTickPhase` over the first k cells in row-major order. */
  function PhaseUpTo(w: World, phase: SimPhase, k: nat): (r: World)
    requires ValidWorld(w)
    ensures ValidWorld(r) && Evolves(w, r)
  {
    if k == 0 then w
    else
      var w1 := PhaseUpTo(w, phase, k - 1);
      var r := TickAt(w1, k - 1, phase);
      EvolvesTrans(w, w1, r);
      r
  }

  /** The worlds a phase passes through: t[k] is the world once the first k cells have ticked. */
  predicate PhaseTrace(w: World, phase: SimPhase, t: seq<World>)
  {
    |t| >= 1 && t[0] == w && ValidWorld(w)
    && forall k :: 0 <= k < |t| - 1 ==> ValidWorld(t[k]) && t[k + 1] == TickAt(t[k], k, phase)
  }

  /** A trace grows by the tick at the cell after its last step. */
  lemma TraceSnoc(w: World, phase: SimPhase, t: seq<World>, r: World)
    requires PhaseTrace(w, phase, t) && ValidWorld(t[|t| - 1]) && r == TickAt(t[|t| - 1], |t| - 1, phase)
    ensures PhaseTrace(w, phase, t + [r])
  {
    hide TickAt, ValidWorld;
    var u := t + [r];
    forall k | 0 <= k < |u| - 1
      ensures ValidWorld(u[k]) && u[k + 1] == TickAt(u[k], k, phase)
    {
      assert u[k] == t[k];
    }
  }

  /** The last world of a trace is the phase run over as many cells as the trace has steps. */
  lemma {:induction false} PhaseTraceUpTo(w: World, phase: SimPhase, t: seq<World>)
    requires PhaseTrace(w, phase, t)
    ensures t[|t| - 1] == PhaseUpTo(w, phase, |t| - 1)
    decreases |t|
  {
    if |t| > 1 {
      var t1 := t[..|t| - 1];
      assert PhaseTrace(w, phase, t1) by {
        forall k | 0 <= k < |t1| - 1
          ensures ValidWorld(t1[k]) && t1[k + 1] == TickAt(t1[k], k, phase)
        {
          assert t1[k] == t[k] && t1[k + 1] == t[k + 1];
        }
      }
      PhaseTraceUpTo(w, phase, t1);
    }
  }

  /** Sum of `getCurrentHeat` over the first cells that hold a component, destroyed ones included. */
  function HeatSum(cells: seq<Option<Component>>): int
  {
    if cells == [] then 0
    else HeatSum(cells[..|cells| - 1]) + (if cells[|cells| - 1].Some? then CurrentHeat(cells[|cells| - 1].value) else 0)
  }

  /**
    `Reactor::runTick`: capacity back to 10000, the HEAT phase, the POWER
    phase, then totalHeat = reactor heat + the current heat of every
    component still in the grid.
  */
  function RunTickF(w: World): (r: World)
    requires ValidWorld(w)
    ensures ValidWorld(r) && Evolves(w.(maxHeat := BASE_MAX_HEAT), r) && r.maxHeat >= BASE_MAX_HEAT
    ensures r.pending.totalHeat == r.pending.reactorHeat + HeatSum(r.cells)
  {
    var w1 := w.(maxHeat := BASE_MAX_HEAT);
    var w2 := PhaseUpTo(w1, PhaseHeatRun, |w1.cells|);
    var w3 := PhaseUpTo(w2, PhasePower, |w2.cells|);
    EvolvesTrans(w1, w2, w3);
    w3.(pending := w3.pending.(totalHeat := w3.pending.reactorHeat + HeatSum(w3.cells)))
  }

  /** A tick as its two phases and the heat sum, one step at a time. */
  lemma RunTickSteps(w: World, w2: World, w3: World)
    requires ValidWorld(w)
    requires w2 == PhaseUpTo(w.(maxHeat := BASE_MAX_HEAT), PhaseHeatRun, |w.cells|)
    requires w3 == PhaseUpTo(w2, PhasePower, |w.cells|)
    ensures RunTickF(w) == w3.(pending := w3.pending.(totalHeat := w3.pending.reactorHeat + HeatSum(w3.cells)))
  {
  }

  /** A tick does not depend on the capacity it starts with. */
  lemma RunTickIgnoresCapacity(w: World, m: int)
    requires ValidWorld(w) && m > 0
    ensures RunTickF(w.(maxHeat := m)) == RunTickF(w)
  {
    assert w.(maxHeat := m).(maxHeat := BASE_MAX_HEAT) == w.(maxHeat := BASE_MAX_HEAT);
  }

  /**
    A tick writes only the pending copies: rolling back afterwards gives
    what rolling back before gave, except for the capacity.
  */
  lemma RollbackUndoesTick(w: World)
    requires ValidWorld(w)
    ensures RollbackF(RunTickF(w)) == RollbackF(w).(maxHeat := RunTickF(w).maxHeat)
  {
    var w1 := w.(maxHeat := BASE_MAX_HEAT);
    RollbackUndoesEvolution(w1, RunTickF(w));
  }
}
