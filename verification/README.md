# IC2 reactor simulator, modelled in Dafny

This project models the simulation engine of node-ic2-reactor-sim and its
text grid reader and printer. The engine simulates an IndustrialCraft 2
nuclear reactor: a grid six rows high and 3 to 9 columns wide, holding heat
vents, heat exchangers, coolant cells, condensators, uranium fuel cells,
neutron reflectors and reactor plating.

**Ticks.** Each tick runs a HEAT phase and then a POWER phase over the grid,
in row-major order. Components move heat between themselves and the reactor
core, and fuel cells pulse their neighbours for energy.

**Committed and pending state.** Every piece of state exists twice, as a
committed ("last" / `curSimState`) copy and a pending copy. `commit` and
`rollback` copy one onto the other.

**`runUntil`.** It ticks until one of six stop conditions holds, tested in
a fixed order.

**`runSimulation`.** It classifies a design as mark I to V:
- it runs a first fuel cycle;
- depending on why that run stopped, it runs probes on copies of the
  reactor: a cooldown, a run past a failure, or a second fuel cycle;
- it fills in the integer fields of the results.

**Grid text.** The grid reader and printer translate between component
kinds and two-letter codes ("VV", "U4", "PH", ...). The reader turns lines
of codes separated by spaces and tabs into a list of kinds plus a width and
a height. The printer lays a list of kinds out again, `width` codes per
line.

## Structure

**Value layer.** It has one function per member of the source.
- `reactor_types.dfy`: the enumerations, the `SimulationState` /
  `SimulationResults` records, the constants, and C++ division and
  remainder (which truncate toward zero).
- `components.dfy`: a component as a datatype.
  - Its kind-specific part has one variant per component class.
  - Each part holds at most one committed/pending pair.
  - It covers `create`, the virtual `alterHeat`, per-component
    `commit`/`rollback`/`resetUsage`, `sumUp` and `getCyclesUntilFailure`.
- `world.dfy`: the reactor as a value (`World`).
  - It covers neighbour lookup, the heat and EU setters, `setDestroyed`,
    `commit`, `rollback`, `removeFuel`, the cost and fuel counts,
    `initializeSimulation`, `resetUsage` and the type list round trip.
- `ticks.dfy`: every component's `tick` and `runTickPhase` / `runTick`.
- `run_until.dfy`: the `runUntil` loop as a recursive function.
- `classifier.dfy`: the branches of `runSimulation` as functions, with
  lemmas about the marks.
- `grid_text.dfy`: the code table, decimal numbers, the tokeniser and the
  printer's layout as functions on strings, with the round-trip lemmas.

**Object layer.** It follows the source statement by statement.
- `reactor.dfy`: `class Reactor`.
  - Its cells are a `seq<Option<Component>>` field, plus the source's other fields.
  - Every method changes the object in place and ensures that its new
    `Model()` is the value-layer function applied to the old one.
- `simulate.dfy`: `runSimulation` and its probes as methods on `Reactor`
  objects and their copies.
- `gridio.dfy`: `class StringMaps`, the two global maps of the grid reader.
  - Its methods fill and query the maps.
  - Its loops read and print a grid.

## Model

| member | source | states |
|---|---|---|
| ReactorTypes.CDiv | reactorsim.cpp:356 | C++ `/` truncates toward zero: for a positive divisor it is floor division of a non-negative dividend and the negated quotient of the magnitude of a negative one |
| ReactorTypes.CMod | gridio.cpp:101-103 | C++ `%` is the remainder of the truncating division: dividend = quotient * divisor + remainder |
| ReactorTypes.TruncToInt | reactorsim.cpp:604 | `(int)` of a double truncates toward zero: the result is within one of the value, on the side of zero |
| Components.Create | reactorsim.cpp:37-75 | null exactly for COMPONENT_NONE and the `default:` branch; otherwise a component of that kind at (x, y) with cost 2, not destroyed, built with its kind's constants and with all state values 0 |
| Components.ParameterFacts | reactorsim.cpp:42-70 | every built component carries its kind's constants: vents hold 1000 and dissipate a positive rate, the spreading vent takes 4 from each neighbour, fuel parts are exactly the fuel kinds with 1, 2 or 4 cells and maximum usage 10000, reflectors and platings have positive durability and heat addition |
| Components.FuelCellSize | reactorsim.cpp:61-63 | a fuel component covers one, two or four uranium cells |
| Components.DefaultCapabilities | reactorsim.hpp:94-98 | a class without its own overrides cannot store heat, has maximum and current heat 0, and `alterHeat` hands its argument back unchanged |
| Components.AlterStore | reactorsim.cpp:15-31 | `Heatable::alterHeat`: an in-range result is stored and 0 returned; a negative result stores 0 and returns the shortfall; an overflow leaves the heat as it was, requests destruction and returns maxHeat - newHeat + 1; the return is never positive and the heat stays in [0, maxHeat] |
| Components.AlterCondensator | reactorsim.cpp:653-659 | `Condensator::alterHeat` stores min(heat, capacity - stored) and returns the rest, so stored + returned grows by exactly `heat`; it never stores more than its capacity, and a negative amount is taken in full |
| Components.AlterPart | reactorsim.hpp:98 | the virtual `alterHeat`: the committed value and the constants are kept, bounds are kept, a heat store never hands back positive heat, only a heat store can ask to be destroyed and it then keeps its state, and otherwise the change plus the returned heat is the amount given |
| Components.CommitPart | reactorsim.hpp:127 | `commit` of a part: the committed value becomes the pending one |
| Components.RollbackPart | reactorsim.hpp:128 | `rollback` of a part: the pending value becomes the committed one |
| Components.RollbackAfterCommit | reactorsim.hpp:110-111 | a component-level rollback right after a commit changes nothing |
| Components.RollbackForgetsPending | reactorsim.hpp:111 | rollback reads only the committed copy: components differing only in pending values roll back alike |
| Components.ResetUsagePart | reactorsim.hpp:99 | `resetUsage` zeroes both copies of a condensator's store and of a fuel cell's or reflector's usage, and leaves every other part alone |
| Components.TriangularClosedForm | reactorsim.cpp:732-736 | the sum 1 + ... + n is n(n+1)/2 |
| Components.SumUp | reactorsim.cpp:732-736 | the `sumUp` loop returns the sum 1 + ... + x, which is 0 for x <= 0 |
| Components.SubCellHeatClosedForm | reactorsim.cpp:683-698 | a sub-cell's HEAT-phase heat is 4 * n(n+1)/2 for n = 1 + numCells/2 plus the accepted neighbour pulses |
| Components.CyclesUntilFailure | reactorsim.cpp:352-357 | -1 whenever the capacity is not positive or the heat did not grow between the runs |
| Components.CyclesIsLeast | reactorsim.cpp:352-357 | below capacity, the formula is the least n >= 1 at which h1 + n * (h2 - h1) reaches the capacity |
| Components.CyclesAtCapacity | reactorsim.cpp:356 | at exactly full capacity the formula gives 1, or 0 for a growth of 1 per cycle |
| ReactorModel.Get | reactorsim.cpp:145-151 | `get` finds a cell exactly when (x, y) is in the grid and the cell holds a component that is not destroyed; it then names cell y * width + x |
| ReactorModel.GetFindsCell | reactorsim.cpp:145-151 | looking up the coordinates of cell i finds cell i exactly when it holds a live component |
| ReactorModel.SetHeat | reactorsim.cpp:186-191 | the core heat is set; meltdown is set when it reaches the capacity and is never cleared; nothing else changes |
| ReactorModel.AddHeat | reactorsim.cpp:193-199 | the core heat grows by the amount, with the same meltdown rule; nothing else changes |
| ReactorModel.GenerateEU | reactorsim.cpp:215-217 | the pending EU count grows by the amount; every other field of the reactor and of its pending state is unchanged |
| ReactorModel.SetDestroyed | reactorsim.cpp:77-85 | nothing when destruction is ignored; otherwise the pending flag is set, and a failure is recorded only on a not-destroyed to destroyed transition |
| ReactorModel.AlterHeatAt | reactorsim.cpp:15-31 | `alterHeat` on cell i changes only that cell and possibly the failure flag; the cell gets the altered part and becomes destroyed on overflow unless destruction is ignored; the returned heat is the part's |
| ReactorModel.AcceptPulseAt | reactorsim.cpp:747-785 | a fuel cell accepts while its usage is at most its maximum; a reflector always accepts; others refuse. No cell but cell i changes. An accepted POWER pulse gives 5 EU and changes nothing else. In HEAT, a fuel cell changes nothing, and a reflector uses one more and is destroyed once its usage exceeds its durability |
| ReactorModel.CommitF | reactorsim.cpp:161-171 | the pending state becomes the committed one; every component commits; exactly the destroyed components leave the grid; the others keep their pending values |
| ReactorModel.RollbackF | reactorsim.cpp:173-180 | the committed state becomes the pending one and every component rolls back; components stay in place |
| ReactorModel.RollbackAfterCommitF | reactorsim.cpp:161-180 | a rollback right after a commit changes nothing |
| ReactorModel.RollbackUndoesEvolution | reactorsim.cpp:173-180 | after any sequence of pending-only changes, a rollback gives what a rollback of the start gives, apart from the capacity |
| ReactorModel.RemoveFuelF | reactorsim.cpp:248-257 | every fuel cell leaves the grid and every other cell is unchanged |
| ReactorModel.CostIsTwicePresent | reactorsim.cpp:259-267 | the summed cost is twice the number of components, since each costs 2 |
| ReactorModel.CountsStep | reactorsim.cpp:330-338 | one more cell adds 1, 2 or 4 uranium cells for a fuel component and sets the coolant flag for a condensator |
| ReactorModel.UraniumCountZero | reactorsim.cpp:328-334 | the uranium count is 0 exactly when the grid holds no fuel component |
| ReactorModel.HasCondensatorIff | reactorsim.cpp:335-336 | the single-use coolant flag is set exactly when a condensator is present |
| ReactorModel.InitializeF | reactorsim.cpp:316-339 | both states become the default state; only they and the two recomputed counts change, every other field (grid, capacity, shape, the ignore-destruction flag) is kept |
| ReactorModel.InitializeCounts | reactorsim.cpp:327-338 | after initialisation the uranium count is 0 exactly without fuel, and the coolant flag says whether a condensator is present |
| ReactorModel.ResetUsageF | reactorsim.cpp:341-350 | components reset their usage but keep their heat; the committed tick and EU restart at 0 and the pending state becomes the committed one |
| ReactorModel.Normalize | reactorsim.cpp:37-75 | a kind reads back as COMPONENT_NONE exactly when `create` builds nothing for it |
| ReactorModel.GetComponentTypesF | reactorsim.cpp:122-130 | one kind per cell: the component's kind, COMPONENT_NONE exactly for an empty cell |
| ReactorModel.SetComponentTypesF | reactorsim.cpp:132-138 | cell i receives `create(types[i])` at its own coordinates; the rest of the reactor is kept |
| ReactorModel.SetComponentTypesPlaces | reactorsim.cpp:132-138 | after `setComponentTypes` every component sits at the coordinates of its own cell |
| ReactorModel.TypesRoundTrip | reactorsim.cpp:122-138 | reading the kinds back after setting them gives each kind, with every kind `create` does not build read as COMPONENT_NONE; setting the read kinds again changes nothing |
| ReactorModel.NewWorld | reactorsim.cpp:91-101 | a new reactor is 3 + extraChambers wide, six high, empty, with capacity 10000 and default states |
| ReactorTicks.VentTick | reactorsim.cpp:542-557 | a vent acts only in the HEAT phase, touches only pending state, and changes no cell but its own |
| ReactorTicks.VentDrainNeverReturned | reactorsim.cpp:549-550 | the early return of a vent's tick never fires: its `alterHeat` never returns positive heat |
| ReactorTicks.VentDrainsReactor | reactorsim.cpp:544-552 | a reactor vent lowers the core heat by min(core heat, its rate), even when it overflows instead of absorbing it |
| ReactorTicks.VentDrawsThenCools | reactorsim.cpp:544-554 | a vent that draws from the core ends with its store altered first by min(core heat, its rate) and then by minus its dissipation rate, and is marked destroyed when either step overflows, unless destruction is ignored |
| ReactorTicks.VentCools | reactorsim.cpp:554 | a vent that does not draw from the core lowers its own heat by its rate, stopping at 0, and leaves the core alone |
| ReactorTicks.CheckDissipate | reactorsim.cpp:570-575 | a missing neighbour or one that cannot store heat is left alone; one that can is altered by minus the amount; no other cell changes |
| ReactorTicks.SpreadVentTick | reactorsim.cpp:561-568 | in the HEAT phase every neighbour found to the left, right, above and below, as looked up before any change, is dissipated by heatFromEach (a heat store altered by minus it) and no other cell changes; in the POWER phase nothing changes; the pending state never changes |
| ReactorTicks.DissipateAroundEffect | reactorsim.cpp:563-566 | the four `checkDissipate` calls, each looking its neighbour up after the previous one, reach exactly the four neighbours the grid had before the first call |
| ReactorTicks.Acceptor | reactorsim.cpp:624-636 | at most one acceptor from one neighbour, live and able to store heat |
| ReactorTicks.HeatAcceptors | reactorsim.cpp:738-745 | at most four acceptors, all live and able to store heat |
| ReactorTicks.Clamp | reactorsim.cpp:605-606 | a transfer is clamped to [-rate, rate] and kept when already inside |
| ReactorTicks.Share | reactorsim.cpp:604-606 | the transfer toward the average fill never exceeds the rate either way |
| ReactorTicks.Transfers | reactorsim.cpp:601-611 | one transfer per acceptor, each within the rate; the core is untouched and no cell but the acceptors changes |
| ReactorTicks.TransfersBalance | reactorsim.cpp:602-610 | after the transfer loop the exchanger's balance is what it got back minus what it sent |
| ReactorTicks.ExchangeAcceptors | reactorsim.cpp:592-597 | an exchanger without an adjacent rate collects no acceptors |
| ReactorTicks.Partners | reactorsim.cpp:585-599 | the average fill counts the exchanger, the core when it exchanges with it and at most four acceptors: 1 to 6 fills, so the division is always defined |
| ReactorTicks.AdjacentFlow | reactorsim.cpp:601-611 | the neighbour transfers touch only pending state and the acceptors' cells, leave the core heat and the capacity alone, send at most the adjacent rate either way to at most four neighbours, and send nothing without an adjacent rate |
| ReactorTicks.ExchangerPlan | reactorsim.cpp:580-619 | the core transfer is within the core rate (0 without one) and changes the core heat by exactly that transfer; the neighbour transfers stay within the adjacent rate; no cell but the acceptors changes |
| ReactorTicks.ExchangerBalance | reactorsim.cpp:601-619 | the heat given to the exchanger's own `alterHeat` is what came back, minus what was sent to the neighbours and to the core |
| ReactorTicks.ExchangerTick | reactorsim.cpp:580-622 | the exchanger's tick touches only pending state, keeps the grid valid and changes no cell but the acceptors and its own; when it is not among its acceptors its own part ends altered by its balance |
| ReactorTicks.AcceptorsAreNeighbours | reactorsim.cpp:588-593 | the acceptors are among the cells the four neighbour lookups find |
| ReactorTicks.ExchangerAltersItself | reactorsim.cpp:580-622 | an exchanger at its own coordinates is never its own acceptor, and its tick ends with one `alterHeat` of its own cell by returned − sent − toCore, destruction included |
| ReactorTicks.CheckPulseable | reactorsim.cpp:723-730 | 1 exactly when a neighbour was found and accepts a pulse (an unspent fuel cell or a reflector), else 0; only that cell changes; in POWER the reactor gains 5 EU per accepted pulse and nothing else |
| ReactorTicks.SidePulses | reactorsim.cpp:688-689 | the count is how many of the left and right neighbours accept a pulse, the right one looked up after the left was pulsed yet found as before; only those two cells change, and in POWER the EU grows by 5 per accepted pulse |
| ReactorTicks.EndPulses | reactorsim.cpp:690-691 | the count is how many of the neighbours above and below accept a pulse; only those two cells change, and in POWER the EU grows by 5 per accepted pulse |
| ReactorTicks.NeighbourPulses | reactorsim.cpp:688-691 | the count is the number of the four neighbours of the original grid that accept a pulse (`AcceptingNeighbours`, at most 4, and 0 exactly when none is an unspent fuel cell or a reflector); only those cells change, and in POWER the EU grows by 5 per accepted pulse |
| ReactorTicks.SelfPulses | reactorsim.cpp:685-687 | a fuel cell pulsing itself n times changes only the pending state: in POWER it gains 5 EU per pulse while the cell is unspent and none once it is spent |
| ReactorTicks.SplitHeat | reactorsim.cpp:707-712 | the split over the acceptors touches only component state and the failure flag |
| ReactorTicks.SplitHeatBalance | reactorsim.cpp:707-712 | the remainder is the heat minus what was sent plus what came back; with acceptors, it is what the last one handed back |
| ReactorTicks.SplitWithoutResidue | reactorsim.cpp:707-713 | when every acceptor takes its share, nothing remains for the core and the shares add up to the heat |
| ReactorTicks.PowerSubCell | reactorsim.cpp:683-691 | the POWER sub-cell changes no cell but its neighbours and gains 5 EU for each of its 1 + numCells/2 self pulses (none once spent) and for each accepting neighbour |
| ReactorTicks.HeatSplit | reactorsim.cpp:692-712 | the heat left after the split is what the sub-cell produced, 4 * triangular(1 + numCells/2 + accepting neighbours), less what went to its acceptors (the heat-storing neighbours found after the pulses, at most four, one share each) plus what they handed back; core heat and capacity are unchanged |
| ReactorTicks.HeatSubCell | reactorsim.cpp:692-713 | the grid is the split's, and the reactor gains the heat left over exactly when it is positive; otherwise the world is the split's unchanged |
| ReactorTicks.SubCellHeatBalance | reactorsim.cpp:697-713 | a HEAT sub-cell conserves heat while its remainder is not negative: what it produces is what it hands its acceptors, less what they hand back, plus what the reactor gains; the reactor never loses heat to it |
| ReactorTicks.SubCell | reactorsim.cpp:683-714 | one pass of the sub-cell loop keeps every fuel cell as it was |
| ReactorTicks.SubCells | reactorsim.cpp:682-715 | the sub-cell loop leaves the ticking fuel cell itself unchanged |
| ReactorTicks.SubCellsStep | reactorsim.cpp:682 | pass k + 1 of the loop runs on the world after k passes, which still holds the fuel cell |
| ReactorTicks.UseFuel | reactorsim.cpp:717-719 | the fuel cell's pending usage grows by one and nothing else changes |
| ReactorTicks.FuelCellTick | reactorsim.cpp:679-721 | a spent fuel cell does nothing; otherwise its usage grows by exactly 1 in the HEAT phase, whatever numCells is, and stays in the POWER phase |
| ReactorTicks.PlatingTick | reactorsim.cpp:804-808 | the capacity grows by the plating's addition in the HEAT phase; nothing else changes |
| ReactorTicks.TickComponent | reactorsim.hpp:93 | the virtual tick keeps the grid valid and touches only pending state |
| ReactorTicks.TickAt | reactorsim.cpp:223-226 | a cell without a live component does not tick |
| ReactorTicks.PhaseUpTo | reactorsim.cpp:219-229 | a phase over a prefix of the grid keeps it valid and touches only pending state |
| ReactorTicks.PhaseTraceUpTo | reactorsim.cpp:221-228 | the row-by-row, cell-by-cell loop ends in the phase run over as many cells as it visited |
| ReactorTicks.RunTickF | reactorsim.cpp:231-246 | the capacity restarts at 10000 and only grows; the total heat is the core heat plus the current heat of every component, destroyed ones included |
| ReactorTicks.RunTickIgnoresCapacity | reactorsim.cpp:236 | a tick does not depend on the capacity it starts with |
| ReactorTicks.RollbackUndoesTick | reactorsim.cpp:231-246 | a rollback after a tick gives the rollback of the state before the tick, apart from the capacity |
| ReactorRun.Advance | reactorsim.cpp:306-312 | the loop tail commits unless it is the first iteration, ticks once, and adds exactly 1 to the pending tick |
| ReactorRun.RunLoop | reactorsim.cpp:275-313 | the reason is the first stop condition that holds on the returned state, in the fixed order; MAX_TICKS only on timeout or with cooldown monitored; the tick never passes 50000, nor 10000 with fuel monitored; the committed tick trails the pending one by one after a commit |
| ReactorRun.RunUntilF | reactorsim.cpp:270-314 | `runUntil` keeps the reactor valid and never changes its shape or its flags |
| ReactorRun.StagnationAfterOneTick | reactorsim.cpp:295-310 | entered with cooldown monitored on a committed tick that is a multiple of 8, with a recorded total heat and no stop condition holding, the run ticks once and returns MAX_TICKS unless an earlier check fires |
| ReactorRun.FuelRunLength | reactorsim.cpp:282-283 | with fuel monitored, a run that stops on fuel has run to tick 10000 exactly, and it times out only with cooldown monitored |
| ReactorRun.RunKeepsComponents | reactorsim.cpp:279-281 | with failures monitored and reported, a run loses no component |
| ReactorSimulation.LongRunIff | reactorsim.cpp:411 | `tick * 100 / fuelTicks >= 10` holds exactly from tick 1000 on |
| ReactorSimulation.CooldownStart | reactorsim.cpp:387-388 | the cooldown copy ignores destruction and holds no fuel |
| ReactorSimulation.RecordCooldown | reactorsim.cpp:391-404 | only a cooldown or a timeout completes; the mark is untouched; timed-out is set on timeout |
| ReactorSimulation.MinPrefixIsLeast | reactorsim.cpp:505-515 | the loop gives -1 exactly when no count is known, and otherwise the least known count, which is one of the counts |
| ReactorSimulation.FirstRun | reactorsim.cpp:369 | the first run keeps the reactor valid |
| ReactorSimulation.Simulated | reactorsim.cpp:361-373 | the reactor passed in keeps its grid size |
| ReactorSimulation.FirstRunReasons | reactorsim.cpp:369 | the first run stops on meltdown, failure or fuel, by tick 10000, and on fuel only at tick 10000 without a failure |
| ReactorSimulation.NoFuelOnlyCost | reactorsim.cpp:363-367 | without fuel only the total cost is filled in: twice the number of components |
| ReactorSimulation.CooldownReasons | reactorsim.cpp:389 | a cooldown probe stops only on cooldown or timeout |
| ReactorSimulation.AfterFailureFacts | reactorsim.cpp:380-424 | after a component failure: mark III exactly for a failure from tick 1000 on, else IV or V; the failure tick is recorded; iterations 0 |
| ReactorSimulation.AfterMeltdownFacts | reactorsim.cpp:433-460 | after a meltdown: mark III from tick 1000 on, else V; the meltdown tick is recorded; iterations 0 |
| ReactorSimulation.AfterFuelUsedFacts | reactorsim.cpp:461-530 | after the fuel is used: mark I or II; mark I without heat left; every mark I has a 10000-tick cycle |
| ReactorSimulation.AlwaysCompletes | reactorsim.cpp:380-535 | none of the five "Invalid stop reason" branches is reachable |
| ReactorSimulation.MarkRange | reactorsim.cpp:359-537 | mark 0 exactly without fuel, otherwise 1 to 5 |
| ReactorSimulation.FailureMarks | reactorsim.cpp:411-420 | for a design whose first run fails a component: mark III exactly when the failure came at tick 1000 or later |
| ReactorSimulation.MeltdownMarks | reactorsim.cpp:438-442 | for a design that melts down first: mark III from tick 1000 on, V before |
| ReactorSimulation.FuelUsedMarks | reactorsim.cpp:463-467 | for a design that uses its fuel: mark I or II, mark I with a 10000-tick cycle when no heat is left |
| ReactorSimulation.RerunKeepsComponents | reactorsim.cpp:503-508 | in the second fuel cycle every component of the first is still present, so the comparison loop skips no cell |
| ReactorObject.Reactor.constructor | reactorsim.cpp:91-101 | a new reactor object is the empty grid of its width |
| ReactorObject.Reactor.Copy | reactorsim.cpp:103-120 | the copy constructor gives a reactor whose model equals the original's |
| ReactorObject.Reactor.Get | reactorsim.cpp:145-151 | `get` on the object returns what the lookup function gives |
| ReactorObject.Reactor.Set | reactorsim.cpp:153-159 | `set` replaces exactly one cell by `create(t, x, y)` |
| ReactorObject.Reactor.GetComponentTypes | reactorsim.cpp:122-130 | the loop returns the kind list of the grid |
| ReactorObject.Reactor.SetComponentTypes | reactorsim.cpp:132-138 | the column-major double loop leaves every cell set from `types[y*width+x]` |
| ReactorObject.Reactor.HeatCapacityExceeded | reactorsim.cpp:211-213 | sets the pending meltdown flag and nothing else |
| ReactorObject.Reactor.SetHeat | reactorsim.cpp:186-191 | the object's new state is that of `SetHeat` |
| ReactorObject.Reactor.AddHeat | reactorsim.cpp:193-199 | the new state is that of `AddHeat`; returns the new core heat |
| ReactorObject.Reactor.GenerateEU | reactorsim.cpp:215-217 | the new state is that of `GenerateEU` |
| ReactorObject.Reactor.ComponentDestroyed | reactorsim.cpp:205-209 | records a failure unless destruction is ignored |
| ReactorObject.Reactor.SetDestroyed | reactorsim.cpp:77-85 | the new state is that of `SetDestroyed` |
| ReactorObject.Reactor.Commit | reactorsim.cpp:161-171 | the commit loop leaves the state `CommitF` gives |
| ReactorObject.Reactor.Rollback | reactorsim.cpp:173-180 | the rollback loop leaves the state `RollbackF` gives |
| ReactorObject.Reactor.RemoveFuel | reactorsim.cpp:248-257 | the loop leaves the state `RemoveFuelF` gives |
| ReactorObject.Reactor.GetTotalCost | reactorsim.cpp:259-267 | the loop returns the summed cost, which is twice the number of components |
| ReactorObject.Reactor.InitializeSimulation | reactorsim.cpp:316-339 | the loops leave the state `InitializeF` gives, with both counts |
| ReactorObject.Reactor.ResetUsage | reactorsim.cpp:341-350 | the loop leaves the state `ResetUsageF` gives |
| ReactorObject.Reactor.AlterHeatAt | reactorsim.cpp:15-31 | in-place `alterHeat` of cell i, as `AlterHeatAt` |
| ReactorObject.Reactor.AcceptPulseAt | reactorsim.cpp:747-785 | in-place `acceptUraniumPulse` of cell i, as `AcceptPulseAt` |
| ReactorObject.Reactor.VentTick | reactorsim.cpp:542-557 | in-place vent tick, as `VentTick` |
| ReactorObject.Reactor.CheckDissipate | reactorsim.cpp:570-575 | in place, as `CheckDissipate` |
| ReactorObject.Reactor.SpreadVentTick | reactorsim.cpp:561-568 | in place, as `SpreadVentTick` |
| ReactorObject.Reactor.PlatingTick | reactorsim.cpp:804-808 | in place, as `PlatingTick` |
| ReactorObject.Reactor.TransferToAdjacent | reactorsim.cpp:601-611 | the transfer loop leaves the state `Transfers` gives and returns its balance |
| ReactorObject.Reactor.ExchangeWithAdjacent | reactorsim.cpp:592-611 | in place, as `AdjacentFlow` |
| ReactorObject.Reactor.ExchangerTick | reactorsim.cpp:580-622 | in place, as `ExchangerTick` |
| ReactorObject.Reactor.CheckPulseable | reactorsim.cpp:723-730 | in place, as `CheckPulseable` |
| ReactorObject.Reactor.SidePulses | reactorsim.cpp:688-689 | in place, as `SidePulses` |
| ReactorObject.Reactor.EndPulses | reactorsim.cpp:690-691 | in place, as `EndPulses` |
| ReactorObject.Reactor.NeighbourPulses | reactorsim.cpp:688-691 | in place, as `NeighbourPulses` |
| ReactorObject.Reactor.PulseSelf | reactorsim.cpp:685-687 | the self-pulse loop leaves the state `SelfPulses` gives |
| ReactorObject.Reactor.SplitHeatOver | reactorsim.cpp:707-712 | the split loop leaves the state `SplitHeat` gives and returns its remainder |
| ReactorObject.Reactor.PowerSubCell | reactorsim.cpp:684-691 | in place, as `PowerSubCell` |
| ReactorObject.Reactor.HeatSplit | reactorsim.cpp:693-712 | in place, as `HeatSplit` |
| ReactorObject.Reactor.HeatSubCell | reactorsim.cpp:693-713 | in place, as `HeatSubCell` |
| ReactorObject.Reactor.SubCell | reactorsim.cpp:683-714 | in place, as `SubCell` |
| ReactorObject.Reactor.SubCells | reactorsim.cpp:682-715 | the `cellNum` loop leaves the state `SubCells` gives |
| ReactorObject.Reactor.UseFuel | reactorsim.cpp:717-719 | in place, as `UseFuel` |
| ReactorObject.Reactor.FuelCellTick | reactorsim.cpp:679-721 | in place, as `FuelCellTick` |
| ReactorObject.Reactor.TickComponent | reactorsim.cpp:224-225 | in place, as `TickComponent` |
| ReactorObject.Reactor.TickCell | reactorsim.cpp:222-226 | one inner-loop step, as `TickAt` on cell y * width + x |
| ReactorObject.Reactor.RunRow | reactorsim.cpp:222-227 | the inner loop extends the phase trace by one row |
| ReactorObject.Reactor.RunTickPhase | reactorsim.cpp:219-229 | the nested loop leaves the state `PhaseUpTo` gives over the whole grid |
| ReactorObject.Reactor.TotalHeat | reactorsim.cpp:239-245 | the loop returns the core heat plus every component's current heat |
| ReactorObject.Reactor.RunTick | reactorsim.cpp:231-246 | in place, as `RunTickF` |
| ReactorObject.Reactor.Advance | reactorsim.cpp:306-312 | in place, as the loop tail `Advance` |
| ReactorObject.Reactor.Checks | reactorsim.cpp:276-294 | the six checks in order, as `Checks` |
| ReactorObject.Reactor.RunUntil | reactorsim.cpp:270-314 | the `for(;;)` loop leaves the state and returns the reason `RunUntilF` gives |
| Simulator.MinCyclesUntilFailure | reactorsim.cpp:505-515 | the loop returns the least cycle count over the reactor and its components, as `MinCycles` |
| Simulator.CooldownProbe | reactorsim.cpp:385-389 | a fresh copy, rolled back when asked, without fuel and ignoring destruction, run until it cools down |
| Simulator.FinishProbe | reactorsim.cpp:407-409 | a fresh committed copy run until meltdown or the fuel is used |
| Simulator.RerunProbe | reactorsim.cpp:489-491 | a fresh copy with its usage reset, run like the first cycle |
| Simulator.AfterFailureRun | reactorsim.cpp:380-432 | the component-failure branch returns `AfterFailure` |
| Simulator.AfterMeltdownRun | reactorsim.cpp:433-460 | the meltdown branch returns `AfterMeltdown` |
| Simulator.AfterFuelUsedRun | reactorsim.cpp:461-531 | the fuel-used branch returns `AfterFuelUsed` |
| Simulator.RunSimulation | reactorsim.cpp:359-537 | `runSimulation` returns `RunSimulationF` and leaves the reactor initialised, run once and committed on fuel |
| GridText.DecimalString | gridio.cpp:49 | `std::to_string` of a non-negative number: digits only, with a leading zero only for 0 |
| GridText.DecimalRoundTrip | gridio.cpp:49 | the decimal string reads back as the number |
| GridText.AbbrOf | gridio.cpp:46-53 | the text of a kind is never empty |
| GridText.TypeOf | gridio.cpp:55-58 | a code's kind; COMPONENT_NONE for a code outside the table |
| GridText.ByKindIsTable | gridio.cpp:21-43 | the kind-to-code table holds exactly the kinds that have a code, each with its code |
| GridText.CodeShape | gridio.cpp:21-43 | every code is two characters, an upper-case letter first, with no separator |
| GridText.CodeRoundTrip | gridio.cpp:14-58 | a kind's code reads back as the kind; COMPONENT_COUNT reads back as COMPONENT_NONE |
| GridText.ReadsBack | gridio.cpp:46-58 | printing and reading a kind gives the kind `create` would build, or COMPONENT_NONE |
| GridText.KindRoundTrip | gridio.cpp:14-58 | a table code's kind prints as that code |
| GridText.UnknownKindCode | gridio.cpp:48-49 | COMPONENT_COUNT prints as "23", and no decimal string is a table code |
| GridText.FindFirstNotOf | gridio.cpp:79 | `find_first_not_of(" \t", pos)`: the first non-separator from pos, or none |
| GridText.FindFirstOf | gridio.cpp:81 | `find_first_of(" \t", start)`: the first separator from start, or none |
| GridText.Tokens | gridio.cpp:78-88 | every token is a word: non-empty and without a space or tab |
| GridText.ScanStep | gridio.cpp:79-87 | one pass of the `for(;;)` loop: no token left, or the next token lies between the two finds and the rest follows it |
| GridText.TokensSplit | gridio.cpp:78-88 | a separator splits the tokens: those of the left part, then those of the right |
| GridText.TokensOfJoin | gridio.cpp:101-103 | words joined with single spaces tokenise back into the same words |
| GridText.TypesOf | gridio.cpp:86 | each token becomes the kind it names |
| GridText.GridTokens | gridio.cpp:71-94 | the tokens of all lines, in order; every one a word |
| GridText.RowCount | gridio.cpp:89-92 | the height counts the lines holding a token; 0 exactly when none does |
| GridText.LastWidth | gridio.cpp:89-92 | the width is the token count of the last line holding a token; 0 exactly when none does |
| GridText.Codes | gridio.cpp:102 | one code per kind, in order: the code of each kind |
| GridText.LayoutRow | gridio.cpp:99-105 | a row of j codes starting at a multiple of width prints as those codes separated by single spaces, with a newline when the row is full |
| GridText.LayoutRows | gridio.cpp:99-105 | a full width-by-height list prints as its rows, codes separated by single spaces, each row ending in a newline |
| GridText.RowsTokens | gridio.cpp:71-94 | reading the printed rows gives back the codes |
| GridText.RowsShape | gridio.cpp:71-94 | reading the printed rows gives back the width and the height |
| GridText.AbbrIsWord | gridio.cpp:21-49 | every kind prints as a single token |
| GridText.GridRoundTrip | gridio.cpp:65-106 | printing a full grid and reading it back gives the same kinds (unbuildable ones as COMPONENT_NONE), the same width and the same height |
| GridIo.LoadingIdempotent | gridio.cpp:19-20 | the loaded map is never empty, so a second load changes nothing |
| GridIo.EnteredAppend | gridio.cpp:71-94 | looking up the codes of two lists in turn is looking up those of their concatenation |
| GridIo.StringMaps.constructor | gridio.cpp:11-12 | both global maps start empty |
| GridIo.StringMaps.AddComponentString | gridio.cpp:14-17 | enters one code in both maps |
| GridIo.StringMaps.LoadStringMaps | gridio.cpp:19-44 | fills the maps with the table only when the code map is empty; a loaded map is left unchanged |
| GridIo.StringMaps.GetComponentTypeAbbr | gridio.cpp:46-53 | loads the maps and returns the kind's code, or its number in decimal |
| GridIo.StringMaps.GetComponentTypeByAbbr | gridio.cpp:55-58 | loads the maps and returns the code's kind; an unknown code is entered with COMPONENT_NONE and is valid from then on |
| GridIo.StringMaps.IsValidComponentTypeAbbr | gridio.cpp:60-63 | valid exactly when the code map holds the code; every table code is valid |
| GridIo.StringMaps.LoadLine | gridio.cpp:76-92 | the token loop appends the kind of every token of the line after the existing contents, enters every token in the code map, and counts the tokens |
| GridIo.StringMaps.LoadTypesGrid | gridio.cpp:65-95 | the kinds of all tokens of all lines are appended in order; height counts the lines with a token and width is the last such line's count |
| GridIo.StringMaps.PrintTypesGrid | gridio.cpp:97-106 | the text is every kind's code, a space before each code whose index is not a multiple of width, a newline after each whose index mod width is width - 1 |

## Left out

- The Node.js binding (node-reactorsim.cpp), index.js and gridio.hpp. They hold V8 marshalling, a worker thread, a JavaScript re-export and prototypes. The binding's grid-length rule survives only as the precondition 0 <= extraChambers <= 6 of the reactor constructor.
- The result fields computed through floating point: the `float` fields `efficiency` and `totalEUPerCycle`, and the `int` fields `euPerTick` and `overallEUPerTick`, which the source assigns from `float` divisions (reactorsim.hpp:57-60). All four are dropped, so the division by a zero `curTick` on reactorsim.cpp:376 is not modelled.
- The heat exchanger's `double` arithmetic. The fill ratios and their average are exact reals; `(int)` truncates them toward zero. IEEE rounding is not modelled.
- `shared_ptr` ownership, the components' raw `reactor` back pointer and `clone()`. A copied reactor is a fresh object holding copies of the component values.
- ReactorObject.Reactor.Copy: the source's copy constructor does not copy `usesSingleUseCoolant`, which stays uninitialised there. The model copies the original's value instead; results read the flag only from the original reactor (reactorsim.cpp:378).
- ReactorObject.Reactor.constructor: the source's constructor leaves `numUraniumCells` and `usesSingleUseCoolant` uninitialised (reactorsim.cpp:91-101); the model, like ReactorModel.NewWorld, starts them at 0 and false. `initializeSimulation` sets both before anything reads them (reactorsim.cpp:328-329).
- The component vector is updated in place in the source; the model's `components` field is a sequence, so every update assigns the whole field, and no two reactors share a component.
- The "Invalid stop reason" console lines. Each of these branches is an `InvalidStopReason` outcome carrying the results so far, and ReactorSimulation.AlwaysCompletes shows that none is reachable.
- Simulator.MinCyclesUntilFailure: the source dereferences the rerun's component without a null check. The model skips a cell that is empty in either reactor, and ReactorSimulation.RerunKeepsComponents shows the rerun still holds every component there.
- ReactorTicks.ExchangerTick: the model's grid invariant does not say that each component's coordinates are those of its cell, so the own-cell effect is stated for an exchanger that is not among its acceptors. ReactorTicks.ExchangerAltersItself gives it unconditionally for an exchanger at its own coordinates, which `setComponentTypes` guarantees (ReactorModel.SetComponentTypesPlaces); that later ticks keep every component placed is not proved.
- Enumeration values outside the declared ones. `ComponentType` is a closed datatype, and COMPONENT_COUNT stands for the `default:` branch of `create`.
- `printReactor` (gridio.cpp:108-121) and `printSimResults` (reactorsim.cpp:811-825): console output only.
- File handling in `loadTypesGrid`: opening the file, `getline` and the `ifs.good()` test. The input is the file's list of complete lines, so an unterminated last line, which the source drops, is not part of the input.
- Standard output in `printTypesGrid`: the printed text is returned as a string, and the flush of `std::endl` is not modelled. The unused `height` parameter is kept.
- GridIo.StringMaps.PrintTypesGrid requires a non-zero width, because `n % width` divides by zero otherwise.
- Integer overflow: `int` arithmetic is unbounded. The counts and heats of a grid of at most 54 cells over at most 50000 ticks stay far below 2^31.
