# SIR cellular automaton: the simulation engine

This project models the engine of a Susceptible–Infectious–Recovered epidemic
simulation in Dafny. A square grid of people ("cells") is updated in
synchronous ticks. In each tick every cell first computes its next state from
its neighbours' current states, and then every cell commits that next state.

A cell has one of five behaviours:

- a plain `SIRCell`;
- a `MaskedCell`: transmits at 0.3 of its rate and catches the virus at 0.8 of the neighbour's rate;
- a `QuarantineCell`: quarantined from the commit that makes it infectious until the commit that makes it recovered, and transmits nothing while quarantined. A cell created infectious is not quarantined until its first commit, so during the first update it transmits at its full rate (`Rules.FreshCellSpreads`);
- a `ContactTracingCell`: if it or a neighbour is infectious when it computes its next state, its quarantine flag is set at the next commit. It leaves quarantine at the commit after an update in which no neighbour is infectious and it does not stay infectious (recovering in that update counts). A cell created infectious is not quarantined, and transmits at its full rate, during the first update;
- an `IntrovertCell`: skips each offered neighbour with probability 0.5 while its neighbourhood is built.

The grid creates the cells (`populate`, plus the mixed-behaviour version in
`MixedSIRGrid`) and links every cell to its Moore neighbours
(`makeNeighborhoods`). It runs the two-phase update (`update`) and reports
counts and snapshots (`getInfectious`, `getDemographics`, `getPopulation`,
`getSize`).

How the model is laid out:

- **States** (`States.dfy`): the three SIR states, the five behaviours (a `Kind` tag
  in place of the Java subclasses) and the constants of the source.
- **Rules** (`Rules.dfy`): one cell as a value (`CellValue`) and the transition
  rules of every behaviour as pure functions (`Transition`, `Commit`, `Step`),
  with lemmas that state each rule in plain terms.
- **Topology** (`Topology.dfy`): the Moore neighbourhood in the order the source
  visits it (`Moore`), and how a cell admits offered neighbours (`Admit`; an
  introvert keeps one only on a roll above 0.5).
- **Cells** (`Cells.dfy`): `class Cell`, with the fields the source updates in
  place and a fixed-size `array<Pos>` neighbourhood of capacity 8. Its methods
  are `updateNextState`, `updateCurrentState` and `addNeighbor` of every
  subclass, each proved against the functions of Rules.
- **Sweeps** (`Sweeps.dfy`): whole-grid specifications. `Tick` is one update
  of a snapshot, `Wire` is neighbourhood construction, and `Seeded` is the plain
  population. The lemmas cover monotonicity, symmetry, counts and draw
  positions.
- **Populations** (`Populations.dfy`): the behaviour cut-offs and type
  selection of the mixed grid, and the population it builds.
- **Grids** (`Grids.dfy`): `class SIRGrid` over an `array2<Cell?>`. Its methods
  are proved to refine the Sweeps and Populations functions; a ghost
  `Contents` mirrors the heap.

Random draws are an infinite stream `Rolls = nat -> real` read at a cursor, and
every operation returns the advanced cursor. The source uses three
generators, and each is a separate parameter:

- `SIRCell.fate` (static), drawn by `updateNextState` and `IntrovertCell.addNeighbor`;
- `Math.random()`, drawn by `SIRGrid.populate`;
- the local `Random` of `MixedSIRGrid.populate`.

The lemmas state exactly which roll each cell consumes.
`MixedSIRGrid` adds a seven-argument `populate` beside the three-argument one
it inherits. Its other overrides, `toString` and `printCells`, are printing
helpers. The seven-argument `populate` is the method
`Grids.SIRGrid.MixedPopulate`, and the class `SIRGrid` has no subclass here.

## Model

| member | source | states |
|---|---|---|
| Rules.InfectionRate | QuarantineCell.java:39-47 | The rate a cell advertises. A quarantine-capable cell advertises 0 while quarantined and its full rate when free. A masked cell advertises 0.3 of its rate (MaskedCell.java:70-72), and a plain or introvert cell its full rate (SIRCell.java:124-126). It never exceeds a non-negative base rate. |
| Rules.Exposure | SIRCell.java:93-107 | The susceptible neighbour scan: one roll per infectious neighbour, in order and without an early exit. It hits when a roll falls below the neighbour's threshold (`ExposureDraws` and `ExposureHit` state it). |
| Rules.BaseTransition | MaskedCell.java:32-63 | updateNextState of the plain, masked, quarantine and introvert cells. Susceptible cells scan their neighbours, infectious cells roll once for recovery, and recovered cells do nothing (`SusceptibleRule`, `InfectiousRule`, `RecoveredRule`). |
| Rules.TracingTransition | ContactTracingCell.java:27-87 | updateNextState of the contact-tracing cell. There is a quarantined branch (recovery roll, quarantine-over test) and a free branch (scan, quarantine on contact, recovery) (`TracingQuarantineRule`, `QuarantinedSusceptibleRule`). |
| Rules.Transition | SIRCell.java:88-118 | Dispatches updateNextState on the behaviour: contact-tracing cells use their override and every other kind uses the inherited rule. |
| Rules.Commit | QuarantineCell.java:25-33 | updateCurrentState with its overrides: the state becomes the next state. A quarantine cell's flag follows it, and a contact-tracing cell takes its pending flag (`CommitSettles`, `QuarantineFollowsState`). |
| Rules.Step | SIRGrid.java:118-132 | One cell's whole tick, compute then commit (`StepMonotone`, `NoRateNoInfection`). |
| Rules.InfectiousCount | SIRCell.java:96-107 | The number of infectious neighbours, at most the neighbourhood size. |
| Rules.InfectiousCountPositive | ContactTracingCell.java:49-53 | Some infectious neighbour is counted if and only if one exists. |
| Rules.ExposureDraws | SIRCell.java:96-107 | A susceptible cell draws exactly one roll per infectious neighbour. |
| Rules.ExposureHit | SIRCell.java:96-107 | The neighbour scan infects if and only if some infectious neighbour's roll falls below its threshold. The scan does not stop at the first hit. |
| Rules.TransitionDraws | SIRCell.java:88-118 | Each cell's update consumes exactly `Draws` rolls, a count fixed by the pre-tick states alone. |
| Rules.SusceptibleRule | MaskedCell.java:35-52 | A susceptible cell that is not a quarantined contact-tracing cell becomes infectious exactly when some roll beats the neighbour's rate (times 0.8 when masked). Otherwise it keeps its next state. |
| Rules.InfectiousRule | SIRCell.java:110-116 | An infectious cell recovers exactly when its single roll falls below the recovery rate. |
| Rules.RecoveredRule | SIRCell.java:117 | A recovered cell draws nothing and keeps its next state. |
| Rules.QuarantinedSusceptibleRule | ContactTracingCell.java:30-58 | A quarantined susceptible contact-tracing cell draws nothing and cannot be infected. |
| Rules.TracingQuarantineRule | ContactTracingCell.java:27-87 | A free contact-tracing cell enters quarantine if and only if it or a neighbour is infectious. A quarantined one leaves if and only if it is not infectious (or recovers on this roll) and no neighbour is infectious. |
| Rules.OtherKindsKeepFlag | SIRCell.java:88-118 | Only contact-tracing cells change the pending quarantine flag while computing the next state. |
| Rules.StepMonotone | SIRCell.java:88-118 | One full step only moves S→I or I→R. It never returns to susceptible, never leaves recovered, and keeps the cell settled. |
| Rules.CommitSettles | SIRCell.java:80-82 | Committing makes the current state the computed next state and leaves the cell settled. |
| Rules.FreshCellSpreads | ContactTracingCell.java:17-21 | A newly built quarantine or contact-tracing cell is not quarantined and advertises its initial state and full rate. |
| Rules.QuarantineFollowsState | QuarantineCell.java:25-33 | After commit, a quarantine cell is quarantined if and only if it is infectious. It advertises rate 0 while infectious and its full rate otherwise. |
| Rules.NoRateNoInfection | SIRCell.java:99-105 | With rolls in [0, 1), a susceptible cell whose infectious neighbours all advertise rate 0 stays susceptible. |
| Topology.Moore | SIRGrid.java:177-190 | The positions makeNeighborhoods offers one cell, in dr-then-dc order (`MooreMembers`, `MooreSlots`, `MooreSize`). |
| Topology.Offer | IntrovertCell.java:29-35 | One addNeighbor call: an introvert draws one roll and keeps the offer only above 0.5; others always offer it to the fixed-capacity array (`KeptMembers`, `AdmitDraws`). |
| Topology.Admit | SIRGrid.java:181-187 | The addNeighbor calls of one cell, in offer order, with the fate cursor threaded through (`AdmitPlain`, `AdmitIntrovert`, `AdmitKeepsPrefix`). |
| Topology.MooreMembers | SIRGrid.java:177-187 | The offered neighbours are exactly the in-grid cells at king's-move distance 1. |
| Topology.MooreSlots | SIRGrid.java:177-190 | The offers come in the source's order: dr from -1 to 1, then dc from -1 to 1, skipping the centre. |
| Topology.MooreSize | SIR.java:22-24 | An interior cell has 8 neighbours, an edge cell 5 and a corner cell 3. The count never exceeds the capacity of 8. |
| Topology.MooreSymmetric | SIRGrid.java:181-186 | q is offered to p if and only if p is offered to q. |
| Topology.MooreIrreflexive | SIRGrid.java:181 | A cell is never offered to itself. |
| Topology.AdmitPlain | SIRCell.java:49-59 | A non-introvert with room keeps every offered neighbour, in order, and draws nothing. |
| Topology.AdmitAppend | SIRGrid.java:177-190 | Offering a list in two parts is the same as offering it at once, with the cursor threaded through. |
| Topology.AdmitDraws | IntrovertCell.java:29-35 | An introvert draws exactly one roll per offer, and other kinds draw none. |
| Topology.AdmitIntrovert | IntrovertCell.java:29-35 | An introvert with room appends exactly the offers whose roll exceeds 0.5, and never more than offered. |
| Topology.KeptMembers | IntrovertCell.java:32 | An offer is kept if and only if its own roll is strictly above the avoidance rate 0.5. |
| Topology.KeptSubsequence | IntrovertCell.java:29-35 | The neighbours an introvert keeps are a subsequence of the offers. |
| Topology.AdmitKeepsPrefix | SIRCell.java:52-58 | Adding neighbours never disturbs those already stored and never exceeds the capacity of 8. |
| Topology.AdmitFrom | SIRCell.java:49-59 | Every stored neighbour was already stored or was offered. |
| Topology.PlainFromEmpty | SIRCell.java:49-59 | An empty non-introvert neighbourhood ends up exactly the offered list. |
| Topology.IntrovertFromEmpty | IntrovertCell.java:29-35 | An empty introvert neighbourhood ends up exactly the kept subsequence of the offers. |
| Cells.Cell.constructor | SIRCell.java:30-42 | A new cell has no neighbours, its next state equals its initial state, and it is not quarantined. |
| Cells.Cell.GetCurrentState | SIRCell.java:65-67 | Returns the cell's current state. |
| Cells.Cell.GetInfectionRate | SIRCell.java:124-126 | A plain or introvert cell returns its rate, and a masked cell returns 0.3 of it (MaskedCell.java:70-72). A quarantine or contact-tracing cell returns 0 while quarantined and its full rate otherwise (QuarantineCell.java:39-47). |
| Cells.Cell.GetQuarantine | QuarantineCell.java:53-55 | Returns the cell's quarantine flag. |
| Cells.Cell.AddToNeighborhood | SIRCell.java:49-59 | Appends the neighbour when fewer than 8 are stored. A full neighbourhood is left unchanged. |
| Cells.Cell.AddNeighbor | IntrovertCell.java:29-35 | The neighbourhood becomes what `Offer` admits (an introvert keeps on a roll above 0.5), and the fate cursor advances by the rolls drawn. |
| Cells.Cell.UpdateNextState | SIRCell.java:88-118 | Sets the next state and pending flag to `Transition` of the cell's pre-tick value and its neighbours' advertised states. Nothing else changes. |
| Cells.Cell.BaseNextState | MaskedCell.java:32-63 | The loop over neighbours computes exactly `BaseTransition`. |
| Cells.Cell.TracingNextState | ContactTracingCell.java:27-87 | The contact-tracing update computes exactly `TracingTransition`. |
| Cells.Cell.QuarantinedNextState | ContactTracingCell.java:30-58 | The quarantined branch computes the recovery roll and the quarantine-over test of `TracingTransition`. |
| Cells.Cell.FreeNextState | ContactTracingCell.java:61-85 | The free branch scans the neighbours, then quarantines and rolls recovery if infectious, as `TracingTransition` says. |
| Cells.Cell.ScanContacts | ContactTracingCell.java:63-75 | After the scan, the pending flag is raised if some neighbour is infectious and is otherwise kept. A susceptible cell rolls once per infectious neighbour, and other cells roll nothing. |
| Cells.Cell.UpdateCurrentState | QuarantineCell.java:25-33 | Commits: the current state becomes the next state. A quarantine cell's flag follows the new state, and a contact-tracing cell takes its pending flag (ContactTracingCell.java:92-95). |
| Sweeps.Wire | SIRGrid.java:167-193 | The wired grid has the same shape as the input grid. |
| Sweeps.PhaseOne | SIRGrid.java:120-124 | The first sweep on a snapshot: every cell's next fields are set by `Transition`, each at its row-major roll offset (`PhaseOneAt`, `PhaseOneAdvertises`). |
| Sweeps.PhaseTwo | SIRGrid.java:127-131 | The second sweep: every cell is committed. |
| Sweeps.Tick | SIRGrid.java:118-132 | One synchronous update of a snapshot (`TickCell`, `TickKeeps`, `TickMonotone`). |
| Sweeps.Windows | SIRGrid.java:120-124 | Each cell's window of fate rolls lies within the tick's total, and a cell earlier in row-major order finishes its rolls before a later one starts. |
| Sweeps.Count | SIRGrid.java:56-72 | The number of cells currently in a given state (`CountSum`, `TickMonotone`). |
| Sweeps.Seeded | SIRGrid.java:145-158 | The plain population before wiring: a plain cell per slot, infectious when its row-major roll falls below the seed fraction (`SeededAt`). |
| Sweeps.PhaseOneAdvertises | SIRGrid.java:120-124 | Computing next states changes no cell's advertised state, rate or neighbours, so every cell in the sweep sees the pre-tick snapshot. |
| Sweeps.PhaseOneAt | SIRGrid.java:120-124 | The cell at (r, c) gets its transition from the pre-tick snapshot, starting at the roll just after all cells before it in row-major order. |
| Sweeps.TickCell | SIRGrid.java:118-132 | One tick of cell (r, c) is exactly `Step` of that cell against its neighbours' pre-tick values. |
| Sweeps.TickKeeps | SIRGrid.java:118-132 | A tick keeps the grid square, the links in the grid and every cell settled. |
| Sweeps.TickMonotone | SIRGrid.java:118-132 | Across one tick the number of susceptible cells never grows and the number of recovered cells never shrinks. |
| Sweeps.CountSum | SIRGrid.java:56-72 | The susceptible, infectious and recovered counts add up to the number of cells. |
| Sweeps.WireValid | SIRGrid.java:167-193 | Building neighbourhoods keeps the grid square, every link inside the grid and every cell settled. |
| Sweeps.WireCounts | SIRGrid.java:167-193 | Building neighbourhoods changes no state, so every count is unchanged. |
| Sweeps.WiredAt | SIRGrid.java:173-187 | Cell (r, c) admits its Moore offers, starting at the roll after all earlier cells' draws. |
| Sweeps.WireKeepsAt | SIRGrid.java:167-193 | Building neighbourhoods changes nothing in a cell but its neighbours. |
| Sweeps.WirePlain | SIRGrid.java:181-187 | A fresh non-introvert cell gets exactly its Moore neighbours and draws nothing. |
| Sweeps.WireIntrovert | IntrovertCell.java:29-35 | A fresh introvert gets exactly the Moore neighbours whose rolls exceed 0.5. |
| Sweeps.WireFromEmpty | SIRGrid.java:181-187 | A fresh cell's neighbourhood is its Moore list, filtered by rolls when it is an introvert. |
| Sweeps.WireIrreflexive | SIRGrid.java:181 | No fresh cell becomes its own neighbour. |
| Sweeps.WireSymmetric | SIRGrid.java:177-190 | On a fresh grid without introverts the neighbour relation is symmetric. |
| Sweeps.PruningOneSided | IntrovertCell.java:29-35 | A non-introvert keeps every adjacent cell, even an introvert that dropped it, so pruning is one-sided. |
| Sweeps.SeededAt | SIRGrid.java:145-157 | The plain population's cell (r, c) is a plain cell whose state comes from the roll `pos + r*n + c`: infectious below the seed fraction, susceptible otherwise. |
| Sweeps.PlainPopulation | SIRGrid.java:140-162 | After populate, every cell is a plain cell seeded by its own roll and linked to exactly its Moore neighbours. |
| Sweeps.PlainPopulationValid | SIRGrid.java:140-162 | The plain population is square, settled and linked in the grid. Its wiring draws nothing, and nobody starts recovered. |
| Populations.MakeCutoffs | MixedSIRGrid.java:42-45 | Cut-offs are consecutive bands of widths contact-tracing, quarantine, masked and introvert, in that priority order, ending at their sum. |
| Populations.KindFor | MixedSIRGrid.java:64-74 | The if-else chain that picks a behaviour from the type roll (`KindBands`, `KindFirstBand`). |
| Populations.MixedSeeded | MixedSIRGrid.java:51-76 | The mixed population before wiring: per cell an infection roll, then a type roll, in row-major order (`MixedSeededValid`, `RollsInOrder`). |
| Populations.KindBands | MixedSIRGrid.java:64-74 | For ordered cut-offs, each behaviour is chosen if and only if the type roll falls in its band; baseline is chosen at or above the last cut-off. |
| Populations.KindFirstBand | MixedSIRGrid.java:61-74 | The first cut-off the roll is below decides: a roll below cut-off i never yields a behaviour of lower priority. |
| Populations.CutoffsOrdered | MixedSIRGrid.java:42-45 | Non-negative percentages give non-decreasing cut-offs. |
| Populations.RollsInOrder | MixedSIRGrid.java:51-62 | Each cell takes two consecutive rolls of the local generator, in row-major order, all within the first 2·n² draws. |
| Populations.MixedSeededValid | MixedSIRGrid.java:51-76 | Before wiring, the mixed population is square, settled and unlinked, and nobody starts recovered. |
| Populations.MixedCellWired | MixedSIRGrid.java:51-79 | After populate, cell (r, c) has the behaviour chosen by its type roll and the state chosen by its infection roll. Its neighbours are its Moore list, filtered by fate rolls when it is an introvert. |
| Populations.MixedPopulationValid | MixedSIRGrid.java:33-80 | The mixed population after wiring is square, settled and linked in the grid, and nobody starts recovered. |
| Populations.MixedAllPlain | MixedSIRGrid.java:64-74 | With all four percentages 0, every cell is a plain cell, wiring draws nothing and the neighbour relation is symmetric. |
| Populations.MixedSaturated | MixedSIRGrid.java:64-74 | Once a cut-off reaches 1, no cell gets a behaviour of lower priority: later categories are starved. |
| Grids.SIRGrid.constructor | SIRGrid.java:17-20 | A new grid has the given side and a side×side array of empty slots. |
| Grids.SIRGrid.GetSize | SIRGrid.java:87-89 | Returns the side length on any grid, populated or not. It equals both dimensions of the array, and on a populated grid it is the number of rows and of columns of the cells. |
| Grids.SIRGrid.CountInRow | SIRGrid.java:30-36 | The inner loop of getInfectious: the count of one row's cells in the given state. |
| Grids.SIRGrid.TallyRow | SIRGrid.java:57-71 | The inner loop of getDemographics: one row's susceptible, infectious and recovered counts. |
| Grids.SIRGrid.GetInfectious | SIRGrid.java:26-40 | Returns the number of currently infectious cells, the same count that `GetDemographics` puts at index 1. |
| Grids.SIRGrid.GetDemographics | SIRGrid.java:49-81 | Returns a fresh array of the susceptible, infectious and recovered counts, which add up to side². |
| Grids.SIRGrid.GetPopulation | SIRGrid.java:97-113 | Returns a fresh side×side array holding every cell's current state. |
| Grids.SIRGrid.ComputeNextStates | SIRGrid.java:120-124 | The first sweep leaves the grid equal to `PhaseOne` of the pre-tick snapshot and consumes exactly the rolls `PhaseDraws` counts. |
| Grids.SIRGrid.CommitStates | SIRGrid.java:127-131 | The second sweep commits every cell. |
| Grids.SIRGrid.Update | SIRGrid.java:118-132 | One update turns the grid into `Tick` of its previous contents, a synchronous step, and keeps the grid valid. |
| Grids.SIRGrid.NeighborhoodAt | SIRGrid.java:177-190 | The cell at (row, col) is offered its Moore neighbours in order. Nothing else in the grid changes. |
| Grids.SIRGrid.OfferSlot | SIRGrid.java:181-187 | One (dr, dc) slot: the in-bounds, non-centre neighbour is offered to the cell, which admits it by its own rule. |
| Grids.SIRGrid.OfferRow | SIRGrid.java:178-189 | The dc loop of one dr row: the cell admits that row's slots in order. |
| Grids.SIRGrid.OfferMoore | SIRGrid.java:177-190 | The dr loop: the cell admits all its Moore slots in dr-then-dc order. |
| Grids.SIRGrid.MakeNeighborhoods | SIRGrid.java:167-193 | The grid becomes `Wire` of its previous contents, drawing exactly the rolls its introverts need, and stays valid. |
| Grids.SIRGrid.PopulateRow | SIRGrid.java:146-157 | Fills one row with plain cells seeded by consecutive `Math.random()` rolls. |
| Grids.SIRGrid.Populate | SIRGrid.java:140-162 | The grid becomes the wired plain population, taking one roll per cell in row-major order. Neighbourhood construction draws no fate roll. |
| Grids.SIRGrid.MixedPopulateRow | MixedSIRGrid.java:52-75 | Fills one row, with each cell taking an infection roll and then a type roll. |
| Grids.SIRGrid.MixedFill | MixedSIRGrid.java:51-76 | Fills the whole array with the mixed population, taking 2·side² rolls. |
| Grids.SIRGrid.MixedPopulate | MixedSIRGrid.java:33-80 | The grid becomes the wired mixed population for the cut-offs of the four percentages. The fate cursor advances by exactly the rolls the introverts draw. |

Two consequences of the rules are worth stating plainly:

- A quarantined susceptible contact-tracing cell draws no infection roll and stays susceptible (ContactTracingCell.java:30-58; `Rules.QuarantinedSusceptibleRule`).
- A quarantine cell's flag clears, and its full rate returns, on the commit that leaves the infectious state (QuarantineCell.java:25-33; `Rules.QuarantineFollowsState`).

## Left out

- `SIR.java` and `MixedSIR.java` are left out. They are the command-line drivers, with visualisation and CSV output, and only call the engine.
- `toString`, `printCells`, the per-class `main` test methods and `getNextState` are left out. They are printing and testing helpers that the engine does not use.
- The `java.util.Random` algorithm is not modelled. Rolls are any stream of reals. The lemmas that need rolls in [0, 1) say so with `UnitRolls`.
- Doubles are modelled as exact reals. Rounding in `0.3 * rate`, `0.8 * rate` and the cut-off sums is not modelled.
- Cells.Cell.AddToNeighborhood: the error line that `addNeighbor` prints on a full neighbourhood is not modelled. The call only leaves the neighbourhood unchanged.
- Neighbours are stored as grid positions (`Pos`), not object references. The grid invariant ties each position to the cell object at that slot of the array.
- The cast `(SIRCell) cell` in `addNeighbor` cannot fail here, because every neighbour is a cell of the same grid.
- Grids.SIRGrid.GetInfectious: the Java `int` counter (SIRGrid.java:27) wraps past 2^31 − 1. The model counts with an unbounded `nat` and does not model that wrap-around.
- Grids.SIRGrid.GetDemographics: the three Java `int` counters (SIRGrid.java:51-53) wrap past 2^31 − 1, and so would side × side. The model's counts never wrap, so its "sum equals side²" has no Java counterpart once side² exceeds 2^31 − 1.
- Sweeps.CountSum: states the sum over unbounded `nat` counts, so it does not capture the Java `int` wrap-around of a grid with more than 2^31 − 1 cells.
- Grids.SIRGrid.Update, Grids.SIRGrid.MakeNeighborhoods, Grids.SIRGrid.GetInfectious, Grids.SIRGrid.GetDemographics, Grids.SIRGrid.GetPopulation: the model requires a populated grid (`Valid()`). Called before `populate`, the Java code throws a NullPointerException on the null slots of the array (SIRGrid.java:19, 29-33). The model does not model that exception.
- Grids.SIRGrid.constructor: the size is a `nat`. `new SIRGrid(n)` with n < 0 throws NegativeArraySizeException (SIRGrid.java:19), and the model does not model that exception.

