/**
 * The whole grid as a value: the row-major sweeps of SIRGrid (the two-phase
 * update, the neighbourhood wiring, the demographic counts) as pure
 * functions over a square matrix of cell values, with the properties the
 * grid promises. The class SIRGrid in module Grids is proved against them.
 */
module Sweeps {
  import opened States
  import opened Rules
  import opened Topology

  /** The population as a matrix of cell values, row first. */
  type Grid = seq<seq<CellValue>>

  /** Every row has as many cells as there are rows. */
  predicate Square(G: Grid)
  {
    forall r :: 0 <= r < |G| ==> |G[r]| == |G|
  }

  /** Every neighbour of every cell lies on the grid, and no neighbourhood is over capacity. */
  predicate Linked(G: Grid)
  {
    forall r, c :: 0 <= r < |G| && 0 <= c < |G[r]| ==>
      |G[r][c].neighbors| <= NeighborhoodSize &&
      forall q :: q in G[r][c].neighbors ==> InGrid(|G|, q)
  }

  /** Every cell is settled, as it is between ticks. */
  predicate AllSettled(G: Grid)
  {
    forall r, c :: 0 <= r < |G| && 0 <= c < |G[r]| ==> Settled(G[r][c])
  }

  /** What a cell sees of the cell at p (positions off the grid do not occur in a linked grid). */
  function Look(G: Grid, p: Pos): Seen
  {
    if 0 <= p.row < |G| && 0 <= p.col < |G[p.row]| then Advertised(G[p.row][p.col]) else Seen(Susceptible, 0.0)
  }

  /** What a cell with neighbour list ns sees, in neighbour order. */
  function SeenIn(G: Grid, ns: seq<Pos>): seq<Seen>
  {
    seq(|ns|, t requires 0 <= t < |ns| => Look(G, ns[t]))
  }

  // ---------------------------------------------------------------------------
  // Where each cell's draws start in a row-major sweep

  /** The draws of the first c cells of a row. */
  function RowTotal(row: seq<nat>, c: nat): nat
    requires c <= |row|
  {
    if c == 0 then 0 else RowTotal(row, c - 1) + row[c - 1]
  }

  /** The draws of the first r rows. */
  function RowsTotal(D: seq<seq<nat>>, r: nat): nat
    requires r <= |D|
  {
    if r == 0 then 0 else RowsTotal(D, r - 1) + RowTotal(D[r - 1], |D[r - 1]|)
  }

  /** How many draws the sweep has taken when it reaches cell (r, c), given each cell's draw count D. */
  function Offset(D: seq<seq<nat>>, r: nat, c: nat): nat
    requires r < |D| && c <= |D[r]|
  {
    RowsTotal(D, r) + RowTotal(D[r], c)
  }

  /** The draws of the whole sweep. */
  function Total(D: seq<seq<nat>>): nat
  {
    RowsTotal(D, |D|)
  }

  /** (r, c) comes strictly before (r', c') in row-major order. */
  predicate Before(r: int, c: int, r': int, c': int)
  {
    r < r' || (r == r' && c < c')
  }

  // ---------------------------------------------------------------------------
  // SIRGrid.update

  /** How many rolls each cell draws in phase 1; it depends on the snapshot only, not on the roll values. */
  function PhaseDraws(G: Grid): seq<seq<nat>>
  {
    seq(|G|, r requires 0 <= r < |G| =>
      seq(|G[r]|, c requires 0 <= c < |G[r]| => Draws(G[r][c], SeenIn(G, G[r][c].neighbors))))
  }

  /**
   * Phase 1: every cell computes its next fields from the pre-tick snapshot,
   * drawing its rolls from where the row-major sweep has got to.
   */
  function PhaseOne(G: Grid, fate: Rolls, pos: nat): Grid
  {
    var D := PhaseDraws(G);
    seq(|G|, r requires 0 <= r < |G| =>
      seq(|G[r]|, c requires 0 <= c < |G[r]| =>
        Apply(G[r][c], Transition(G[r][c], SeenIn(G, G[r][c].neighbors), fate, pos + Offset(D, r, c)))))
  }

  /** Phase 2: every cell commits its next fields. */
  function PhaseTwo(H: Grid): Grid
  {
    seq(|H|, r requires 0 <= r < |H| => seq(|H[r]|, c requires 0 <= c < |H[r]| => Commit(H[r][c])))
  }

  /** One call of update: compute every cell, then commit every cell. */
  function Tick(G: Grid, fate: Rolls, pos: nat): Grid
  {
    PhaseTwo(PhaseOne(G, fate, pos))
  }

  // ---------------------------------------------------------------------------
  // SIRGrid.makeNeighborhoods

  /** The positions makeNeighborhoods offers each cell of G: its Moore neighbourhood. */
  function Offers(G: Grid): seq<seq<seq<Pos>>>
  {
    seq(|G|, r requires 0 <= r < |G| => seq(|G[r]|, c requires 0 <= c < |G[r]| => Moore(|G|, r, c)))
  }

  /** How many rolls each cell draws while its neighbourhood is built: one per offer for an introvert. */
  function WireDraws(G: Grid): seq<seq<nat>>
  {
    seq(|G|, r requires 0 <= r < |G| =>
      seq(|G[r]|, c requires 0 <= c < |G[r]| => if G[r][c].kind == Introvert then MooreCount(|G|, r, c) else 0))
  }

  /** M offers each cell of G a list and D gives each cell a draw count: both have G's shape. */
  predicate Shaped(G: Grid, M: seq<seq<seq<Pos>>>, D: seq<seq<nat>>)
  {
    |M| == |G| && |D| == |G| && forall r :: 0 <= r < |G| ==> |M[r]| == |G[r]| && |D[r]| == |G[r]|
  }

  /**
   * The sweep of makeNeighborhoods with offer lists M and draw counts D:
   * each cell, in row-major order, is offered its list, drawing from where
   * the cells before it stopped.
   */
  function WireBy(G: Grid, M: seq<seq<seq<Pos>>>, D: seq<seq<nat>>, fate: Rolls, pos: nat): Grid
    requires Shaped(G, M, D)
  {
    seq(|G|, r requires 0 <= r < |G| => seq(|G[r]|, c requires 0 <= c < |G[r]| =>
      var a := G[r][c];
      a.(neighbors := Admit(a.kind, a.neighbors, M[r][c], fate, pos + Offset(D, r, c)).neighbors)))
  }

  /** makeNeighborhoods: every cell, in row-major order, is offered its Moore neighbours. */
  function Wire(G: Grid, fate: Rolls, pos: nat): (W: Grid)
    ensures |W| == |G| && forall r :: 0 <= r < |G| ==> |W[r]| == |G[r]|
  {
    WireBy(G, Offers(G), WireDraws(G), fate, pos)
  }

  // ---------------------------------------------------------------------------
  // getDemographics / getInfectious

  /** The number of cells of a row whose current state is s. */
  function CountRow(row: seq<CellValue>, s: SIRState): nat
  {
    if row == [] then 0
    else CountRow(row[..|row| - 1], s) + (if row[|row| - 1].current == s then 1 else 0)
  }

  /** The number of cells of the grid whose current state is s. */
  function Count(G: Grid, s: SIRState): nat
  {
    if G == [] then 0 else Count(G[..|G| - 1], s) + CountRow(G[|G| - 1], s)
  }

  // ---------------------------------------------------------------------------
  // Lemmas: the sweep offsets

  /** A row's total is at least the total of any prefix plus the next cell. */
  lemma {:induction false} RowTotalMono(row: seq<nat>, c: nat, c': nat)
    requires c < c' <= |row|
    ensures RowTotal(row, c) + row[c] <= RowTotal(row, c')
    decreases c'
  {
    if c + 1 < c' {
      RowTotalMono(row, c, c' - 1);
    }
  }

  /** The rows before r take at least as many draws as the rows before r0 plus row r0. */
  lemma {:induction false} RowsTotalMono(D: seq<seq<nat>>, r0: nat, r: nat)
    requires r0 < r <= |D|
    ensures RowsTotal(D, r0) + RowTotal(D[r0], |D[r0]|) <= RowsTotal(D, r)
    decreases r
  {
    if r0 + 1 < r {
      RowsTotalMono(D, r0, r - 1);
    }
  }

  /**
   * Each cell draws from its own window [Offset, Offset + D[r][c]): the
   * windows follow row-major order without overlapping, and all of them lie
   * within the sweep's total.
   */
  lemma Windows(D: seq<seq<nat>>, r: nat, c: nat, r': nat, c': nat)
    requires r < |D| && c < |D[r]| && r' < |D| && c' < |D[r']|
    ensures Offset(D, r, c) + D[r][c] <= Total(D)
    ensures Before(r, c, r', c') ==> Offset(D, r, c) + D[r][c] <= Offset(D, r', c')
  {
    RowTotalMono(D[r], c, |D[r]|);
    RowsTotalMono(D, r, |D|);
    if r < r' {
      RowsTotalMono(D, r, r');
    } else if r == r' && c < c' {
      RowTotalMono(D[r], c, c');
    }
  }

  // ---------------------------------------------------------------------------
  // Lemmas: the update

  /** Phase 1 writes only the next fields, so every cell still shows its neighbours what it showed before. */
  lemma PhaseOneAdvertises(G: Grid, fate: Rolls, pos: nat, r: nat, c: nat)
    requires r < |G| && c < |G[r]|
    ensures |PhaseOne(G, fate, pos)| == |G| && |PhaseOne(G, fate, pos)[r]| == |G[r]|
    ensures Advertised(PhaseOne(G, fate, pos)[r][c]) == Advertised(G[r][c])
    ensures PhaseOne(G, fate, pos)[r][c].neighbors == G[r][c].neighbors
  {
  }

  /** The draw count of (r, c) in phase 1 is what its Transition draws, started where the sweep has got to. */
  lemma PhaseDrawsAt(G: Grid, fate: Rolls, pos: nat, r: nat, c: nat)
    requires r < |G| && c < |G[r]|
    ensures |PhaseDraws(G)| == |G| && |PhaseDraws(G)[r]| == |G[r]|
    ensures var start := pos + Offset(PhaseDraws(G), r, c);
      Transition(G[r][c], SeenIn(G, G[r][c].neighbors), fate, start).cursor == start + PhaseDraws(G)[r][c]
  {
    var D := PhaseDraws(G);
    var seen := SeenIn(G, G[r][c].neighbors);
    assert D[r][c] == Draws(G[r][c], seen);
    TransitionDraws(G[r][c], seen, fate, pos + Offset(D, r, c));
  }

  /** The entry of phase 1 at (r, c): one Transition, started where the sweep has got to. */
  lemma PhaseOneAt(G: Grid, fate: Rolls, pos: nat, r: nat, c: nat)
    requires r < |G| && c < |G[r]|
    ensures |PhaseOne(G, fate, pos)| == |G| && |PhaseOne(G, fate, pos)[r]| == |G[r]|
    ensures |PhaseDraws(G)| == |G| && |PhaseDraws(G)[r]| == |G[r]|
    ensures PhaseOne(G, fate, pos)[r][c] ==
              Apply(G[r][c], Transition(G[r][c], SeenIn(G, G[r][c].neighbors), fate, pos + Offset(PhaseDraws(G), r, c)))
  {
  }

  /**
   * P and D agree with phase 1 over G cell by cell: each entry of P is its
   * cell's Transition started at its offset under D, drawing D's count, and
   * shows its neighbours what the cell showed in G.
   */
  ghost predicate PhaseTarget(G: Grid, P: Grid, D: seq<seq<nat>>, fate: Rolls, pos: nat)
  {
    && |P| == |G| && |D| == |G| && (forall r :: 0 <= r < |G| ==> |G[r]| == |G| && |P[r]| == |G| && |D[r]| == |G|)
    && (forall r, c {:trigger P[r][c]} :: 0 <= r < |G| && 0 <= c < |G| ==>
          Advertised(P[r][c]) == Advertised(G[r][c]) && P[r][c].neighbors == G[r][c].neighbors)
    && (forall r, c {:trigger P[r][c]} :: 0 <= r < |G| && 0 <= c < |G| ==>
          var o := Transition(G[r][c], SeenIn(G, G[r][c].neighbors), fate, pos + Offset(D, r, c));
          P[r][c] == Apply(G[r][c], o) && o.cursor == pos + Offset(D, r, c) + D[r][c])
  }

  /**
   * Part way through the sweep, with the cells before (row, col) computed
   * and the rest untouched, every cell still shows what it showed in G.
   */
  lemma MidSweep(G: Grid, P: Grid, D: seq<seq<nat>>, fate: Rolls, pos: nat, C: Grid, row: nat, col: nat)
    requires PhaseTarget(G, P, D, fate, pos) && |C| == |G| && row < |G| && col < |G|
    requires forall r :: 0 <= r < |G| ==> |C[r]| == |G|
    requires forall r, c :: 0 <= r < |G| && 0 <= c < |G| ==> C[r][c] == if Before(r, c, row, col) then P[r][c] else G[r][c]
    ensures forall r, c :: 0 <= r < |G| && 0 <= c < |G| ==>
              Advertised(C[r][c]) == Advertised(G[r][c]) && C[r][c].neighbors == G[r][c].neighbors
    ensures C[row][col] == G[row][col]
  {
  }

  /** Computing cell (row, col) of the sweep moves it one cell on, and its rolls end where the next cell's start. */
  lemma SweepStep(G: Grid, P: Grid, D: seq<seq<nat>>, fate: Rolls, pos: nat, C: Grid, row: nat, col: nat)
    requires PhaseTarget(G, P, D, fate, pos) && |C| == |G| && row < |G| && col < |G|
    requires forall r :: 0 <= r < |G| ==> |C[r]| == |G|
    requires forall r, c :: 0 <= r < |G| && 0 <= c < |G| ==> C[r][c] == if Before(r, c, row, col) then P[r][c] else G[r][c]
    ensures var o := Transition(G[row][col], SeenIn(G, G[row][col].neighbors), fate, pos + Offset(D, row, col));
      var C' := C[row := C[row][col := Apply(G[row][col], o)]];
      && (forall r, c :: 0 <= r < |G| && 0 <= c < |G| ==> C'[r][c] == if Before(r, c, row, col + 1) then P[r][c] else G[r][c])
      && o.cursor == pos + Offset(D, row, col + 1)
  {
  }

  /** PhaseOne and PhaseDraws are such a target. */
  lemma PhaseOneCells(G: Grid, fate: Rolls, pos: nat)
    requires Square(G)
    ensures PhaseTarget(G, PhaseOne(G, fate, pos), PhaseDraws(G), fate, pos)
  {
    forall r, c | 0 <= r < |G| && 0 <= c < |G|
      ensures var P, D := PhaseOne(G, fate, pos), PhaseDraws(G);
        && Advertised(P[r][c]) == Advertised(G[r][c]) && P[r][c].neighbors == G[r][c].neighbors
        && var o := Transition(G[r][c], SeenIn(G, G[r][c].neighbors), fate, pos + Offset(D, r, c));
           P[r][c] == Apply(G[r][c], o) && o.cursor == pos + Offset(D, r, c) + D[r][c]
    {
      PhaseOneAt(G, fate, pos, r, c);
      PhaseDrawsAt(G, fate, pos, r, c);
      PhaseOneAdvertises(G, fate, pos, r, c);
    }
  }

  /**
   * The update is synchronous: each cell's new value is its own one-cell
   * step over what its neighbours showed before the tick, whatever order the
   * sweep visits the cells in; only the roll window depends on the order.
   */
  lemma TickCell(G: Grid, fate: Rolls, pos: nat, r: nat, c: nat)
    requires r < |G| && c < |G[r]|
    ensures |Tick(G, fate, pos)| == |G| && |Tick(G, fate, pos)[r]| == |G[r]|
    ensures Tick(G, fate, pos)[r][c] ==
              Step(G[r][c], SeenIn(G, G[r][c].neighbors), fate, pos + Offset(PhaseDraws(G), r, c))
  {
  }

  /** A tick keeps the grid square, linked and settled. */
  lemma TickKeeps(G: Grid, fate: Rolls, pos: nat)
    requires Square(G) && Linked(G) && AllSettled(G)
    ensures var H := Tick(G, fate, pos);
      Square(H) && Linked(H) && AllSettled(H)
  {
    var H: Grid := Tick(G, fate, pos);
    forall r, c | 0 <= r < |H| && 0 <= c < |H[r]|
      ensures Settled(H[r][c]) && H[r][c].neighbors == G[r][c].neighbors
    {
      TickCell(G, fate, pos, r, c);
      StepMonotone(G[r][c], SeenIn(G, G[r][c].neighbors), fate, pos + Offset(PhaseDraws(G), r, c));
    }
  }

  /** Counting the first k + 1 rows adds row k to the count of the first k. */
  lemma CountExtend(G: Grid, k: nat, s: SIRState)
    requires k < |G|
    ensures Count(G[..k + 1], s) == Count(G[..k], s) + CountRow(G[k], s)
  {
    assert G[..k + 1][..k] == G[..k];
  }

  /** Over one row, if every cell in state s after a step was in state s before, the count of s cannot grow. */
  lemma {:induction false} CountRowLe(xs: seq<CellValue>, ys: seq<CellValue>, s: SIRState)
    requires |xs| == |ys|
    requires forall i :: 0 <= i < |ys| && ys[i].current == s ==> xs[i].current == s
    ensures CountRow(ys, s) <= CountRow(xs, s)
  {
    if ys != [] {
      var n := |ys| - 1;
      assert forall i :: 0 <= i < n ==> ys[..n][i] == ys[i] && xs[..n][i] == xs[i];
      CountRowLe(xs[..n], ys[..n], s);
    }
  }

  /** Over the grid, if every cell in state s after a step was in state s before, the count of s cannot grow. */
  lemma {:induction false} CountLe(G: Grid, H: Grid, s: SIRState)
    requires |G| == |H| && forall r :: 0 <= r < |G| ==> |G[r]| == |H[r]|
    requires forall r, c :: 0 <= r < |H| && 0 <= c < |H[r]| && H[r][c].current == s ==> G[r][c].current == s
    ensures Count(H, s) <= Count(G, s)
  {
    if H != [] {
      var n := |H| - 1;
      CountLe(G[..n], H[..n], s);
      CountRowLe(G[n], H[n], s);
    }
  }

  /** Across one tick of a settled grid the susceptible count never grows and the recovered count never shrinks. */
  lemma TickMonotone(G: Grid, fate: Rolls, pos: nat)
    requires AllSettled(G)
    ensures Count(Tick(G, fate, pos), Susceptible) <= Count(G, Susceptible)
    ensures Count(G, Recovered) <= Count(Tick(G, fate, pos), Recovered)
  {
    var H: Grid := Tick(G, fate, pos);
    forall r, c | 0 <= r < |H| && 0 <= c < |H[r]|
      ensures (H[r][c].current == Susceptible ==> G[r][c].current == Susceptible)
      ensures (G[r][c].current == Recovered ==> H[r][c].current == Recovered)
    {
      TickCell(G, fate, pos, r, c);
      StepMonotone(G[r][c], SeenIn(G, G[r][c].neighbors), fate, pos + Offset(PhaseDraws(G), r, c));
    }
    CountLe(G, H, Susceptible);
    CountLe(H, G, Recovered);
  }

  /** The three counts of a row add up to its length. */
  lemma {:induction false} CountRowSum(row: seq<CellValue>)
    ensures CountRow(row, Susceptible) + CountRow(row, Infectious) + CountRow(row, Recovered) == |row|
  {
    if row != [] {
      CountRowSum(row[..|row| - 1]);
    }
  }

  /** The demographic counts of a square grid add up to the population, sideSize squared. */
  lemma {:induction false} CountSum(G: Grid)
    requires Square(G)
    ensures Count(G, Susceptible) + Count(G, Infectious) + Count(G, Recovered) == |G| * |G|
  {
    CountPrefixSum(G, |G|);
    assert G[..|G|] == G;
  }

  /** The counts over the first k rows of a square grid add up to k rows of |G| cells. */
  lemma {:induction false} CountPrefixSum(G: Grid, k: nat)
    requires Square(G) && k <= |G|
    ensures var P := G[..k];
      Count(P, Susceptible) + Count(P, Infectious) + Count(P, Recovered) == k * |G|
  {
    if k > 0 {
      CountPrefixSum(G, k - 1);
      assert G[..k][..k - 1] == G[..k - 1];
      CountRowSum(G[k - 1]);
    }
  }

  // ---------------------------------------------------------------------------
  // Lemmas: the wiring

  /** D counts, for every cell, the rolls its offers under M draw: one per offer for an introvert, none otherwise. */
  predicate DrawsMatch(G: Grid, M: seq<seq<seq<Pos>>>, D: seq<seq<nat>>)
    requires Shaped(G, M, D)
  {
    forall r, c :: 0 <= r < |G| && 0 <= c < |G[r]| ==> D[r][c] == if G[r][c].kind == Introvert then |M[r][c]| else 0
  }

  /**
   * W and D agree with the sweep of makeNeighborhoods over G with offer
   * lists M, cell by cell: each entry of W is its cell after being offered
   * its list from its offset under D, drawing D's count.
   */
  ghost predicate WireTarget(G: Grid, W: Grid, D: seq<seq<nat>>, M: seq<seq<seq<Pos>>>, fate: Rolls, pos: nat)
  {
    && Square(G) && Shaped(G, M, D) && |W| == |G| && (forall r :: 0 <= r < |G| ==> |W[r]| == |G|)
    && (forall r, c {:trigger W[r][c]} :: 0 <= r < |G| && 0 <= c < |G| ==>
          var l := Admit(G[r][c].kind, G[r][c].neighbors, M[r][c], fate, pos + Offset(D, r, c));
          W[r][c] == G[r][c].(neighbors := l.neighbors) && l.cursor == pos + Offset(D, r, c) + D[r][c])
  }

  /** The sweep with matching draw counts is such a target. */
  lemma WireByTarget(G: Grid, M: seq<seq<seq<Pos>>>, D: seq<seq<nat>>, fate: Rolls, pos: nat)
    requires Square(G) && Shaped(G, M, D) && DrawsMatch(G, M, D)
    ensures WireTarget(G, WireBy(G, M, D, fate, pos), D, M, fate, pos)
  {
    forall r, c | 0 <= r < |G| && 0 <= c < |G|
      ensures var W, l := WireBy(G, M, D, fate, pos), Admit(G[r][c].kind, G[r][c].neighbors, M[r][c], fate, pos + Offset(D, r, c));
        W[r][c] == G[r][c].(neighbors := l.neighbors) && l.cursor == pos + Offset(D, r, c) + D[r][c]
    {
      WireByCell(G, M, D, fate, pos, r, c);
    }
  }

  /** One cell of such a target: its entry, and the cursor after its offers. */
  lemma WireByCell(G: Grid, M: seq<seq<seq<Pos>>>, D: seq<seq<nat>>, fate: Rolls, pos: nat, r: nat, c: nat)
    requires Shaped(G, M, D) && DrawsMatch(G, M, D) && r < |G| && c < |G[r]|
    ensures var W, l := WireBy(G, M, D, fate, pos), Admit(G[r][c].kind, G[r][c].neighbors, M[r][c], fate, pos + Offset(D, r, c));
      W[r][c] == G[r][c].(neighbors := l.neighbors) && l.cursor == pos + Offset(D, r, c) + D[r][c]
  {
    var start := pos + Offset(D, r, c);
    assert D[r][c] == if G[r][c].kind == Introvert then |M[r][c]| else 0;
    AdmitDraws(G[r][c].kind, G[r][c].neighbors, M[r][c], fate, start);
    WireByAt(G, M, D, fate, pos, r, c);
  }

  /** Moore offers and their draw counts have the grid's shape, and the counts match the offers. */
  lemma OffersMatch(G: Grid)
    requires Square(G)
    ensures Shaped(G, Offers(G), WireDraws(G)) && DrawsMatch(G, Offers(G), WireDraws(G))
  {
    forall r, c | 0 <= r < |G| && 0 <= c < |G[r]|
      ensures WireDraws(G)[r][c] == if G[r][c].kind == Introvert then |Offers(G)[r][c]| else 0
    {
      MooreSize(|G|, r, c);
    }
  }

  /** Wire and WireDraws are such a target, with the Moore neighbourhoods as offers. */
  lemma WireCells(G: Grid, fate: Rolls, pos: nat)
    requires Square(G)
    ensures WireTarget(G, Wire(G, fate, pos), WireDraws(G), Offers(G), fate, pos)
  {
    OffersMatch(G);
    WireByTarget(G, Offers(G), WireDraws(G), fate, pos);
  }

  /**
   * Wiring cell (row, col) of C, the grid wired up to that cell, gives N,
   * the grid wired up to the next cell, and its rolls end where the next
   * cell's start.
   */
  lemma WireStep(G: Grid, W: Grid, D: seq<seq<nat>>, M: seq<seq<seq<Pos>>>, fate: Rolls, pos: nat,
                 C: Grid, N: Grid, row: nat, col: nat, start: nat, cursor: nat)
    requires WireTarget(G, W, D, M, fate, pos) && |C| == |G| && row < |G| && col < |G|
    requires start == pos + Offset(D, row, col)
    requires forall r :: 0 <= r < |G| ==> |C[r]| == |G|
    requires forall r, c :: 0 <= r < |G| && 0 <= c < |G| ==> C[r][c] == if Before(r, c, row, col) then W[r][c] else G[r][c]
    requires var a := C[row][col];
      var l := Admit(a.kind, a.neighbors, M[row][col], fate, start);
      N == C[row := C[row][col := a.(neighbors := l.neighbors)]] && cursor == l.cursor
    ensures |N| == |G| && forall r :: 0 <= r < |G| ==> |N[r]| == |G|
    ensures forall r, c :: 0 <= r < |G| && 0 <= c < |G| ==> N[r][c] == if Before(r, c, row, col + 1) then W[r][c] else G[r][c]
    ensures cursor == pos + Offset(D, row, col + 1)
  {
    assert C[row][col] == G[row][col];
    assert N[row][col] == W[row][col];
    assert Offset(D, row, col + 1) == Offset(D, row, col) + D[row][col];
  }

  /** Each cell of the sweep changes nothing but its neighbour list. */
  lemma WireByKeeps(G: Grid, M: seq<seq<seq<Pos>>>, D: seq<seq<nat>>, fate: Rolls, pos: nat)
    requires Shaped(G, M, D)
    ensures var W := WireBy(G, M, D, fate, pos);
      |W| == |G| && forall r, c :: 0 <= r < |G| && 0 <= c < |G[r]| ==>
        |W[r]| == |G[r]| && W[r][c].(neighbors := G[r][c].neighbors) == G[r][c]
  {
  }

  /** A sweep whose offers all lie on the grid leaves a linked grid linked. */
  lemma WireByLinked(G: Grid, M: seq<seq<seq<Pos>>>, D: seq<seq<nat>>, fate: Rolls, pos: nat)
    requires Shaped(G, M, D) && Linked(G)
    requires forall r, c, q :: 0 <= r < |G| && 0 <= c < |G[r]| && q in M[r][c] ==> InGrid(|G|, q)
    ensures Linked(WireBy(G, M, D, fate, pos))
  {
    var W: Grid := WireBy(G, M, D, fate, pos);
    forall r, c | 0 <= r < |W| && 0 <= c < |W[r]|
      ensures |W[r][c].neighbors| <= NeighborhoodSize
      ensures forall q :: q in W[r][c].neighbors ==> InGrid(|W|, q)
    {
      var a, p := G[r][c], pos + Offset(D, r, c);
      AdmitKeepsPrefix(a.kind, a.neighbors, M[r][c], fate, p);
      forall q | q in W[r][c].neighbors
        ensures InGrid(|W|, q)
      {
        AdmitFrom(a.kind, a.neighbors, M[r][c], fate, p, q);
      }
    }
  }

  /** Moore offers and the wiring draw counts have the grid's shape. */
  lemma OffersShaped(G: Grid)
    ensures Shaped(G, Offers(G), WireDraws(G))
  {
  }

  /** Every Moore offer lies on the grid. */
  lemma OffersInGrid(G: Grid)
    ensures Shaped(G, Offers(G), WireDraws(G))
    ensures forall r, c, q :: 0 <= r < |G| && 0 <= c < |G[r]| && q in Offers(G)[r][c] ==> InGrid(|G|, q)
  {
    forall r, c, q | 0 <= r < |G| && 0 <= c < |G[r]| && q in Offers(G)[r][c]
      ensures InGrid(|G|, q)
    {
      MooreMembers(|G|, r, c, q);
    }
  }

  /** M offers every cell of a side-n grid its Moore neighbourhood. */
  ghost predicate MooreOffers(M: seq<seq<seq<Pos>>>, n: nat)
  {
    |M| == n && (forall r :: 0 <= r < n ==> |M[r]| == n) &&
    forall r, c {:trigger Moore(n, r, c)} :: 0 <= r < n && 0 <= c < n ==> M[r][c] == Moore(n, r, c)
  }

  /** Offers gives a square grid's cells their Moore neighbourhoods. */
  lemma OffersMoore(G: Grid)
    requires Square(G)
    ensures MooreOffers(Offers(G), |G|)
  {
  }

  /** Wiring keeps a grid square, linked and settled. */
  lemma WireValid(G: Grid, fate: Rolls, pos: nat)
    requires Square(G) && Linked(G) && AllSettled(G)
    ensures var W := Wire(G, fate, pos);
      Square(W) && Linked(W) && AllSettled(W)
  {
    WireLinked(G, fate, pos);
    WireByKeeps(G, Offers(G), WireDraws(G), fate, pos);
  }

  /** Wiring a linked grid leaves it linked: every new neighbour is an on-grid Moore neighbour. */
  lemma WireLinked(G: Grid, fate: Rolls, pos: nat)
    requires Linked(G)
    ensures |Wire(G, fate, pos)| == |G| && Linked(Wire(G, fate, pos))
  {
    OffersInGrid(G);
    WireByLinked(G, Offers(G), WireDraws(G), fate, pos);
  }

  /** Wiring changes no cell's state, so it changes no count. */
  lemma WireCounts(G: Grid, fate: Rolls, pos: nat, s: SIRState)
    ensures Count(Wire(G, fate, pos), s) == Count(G, s)
  {
    var W: Grid := Wire(G, fate, pos);
    WireByKeeps(G, Offers(G), WireDraws(G), fate, pos);
    assert forall r, c :: 0 <= r < |G| && 0 <= c < |G[r]| ==> W[r][c].current == G[r][c].current;
    CountLe(G, W, s);
    CountLe(W, G, s);
  }

  /** Cell (r, c) of the sweep is the cell offered its list from its own place in the sweep. */
  lemma WireByAt(G: Grid, M: seq<seq<seq<Pos>>>, D: seq<seq<nat>>, fate: Rolls, pos: nat, r: nat, c: nat)
    requires Shaped(G, M, D) && r < |G| && c < |G[r]|
    ensures var W := WireBy(G, M, D, fate, pos);
      && |W| == |G| && |W[r]| == |G[r]|
      && W[r][c] == G[r][c].(neighbors := Admit(G[r][c].kind, G[r][c].neighbors, M[r][c], fate, pos + Offset(D, r, c)).neighbors)
  {
  }

  /** Cell (r, c) of the wired grid is the cell offered its Moore neighbours from its own place in the sweep. */
  lemma WiredAt(G: Grid, fate: Rolls, pos: nat, r: nat, c: nat)
    requires r < |G| && c < |G[r]|
    ensures |Wire(G, fate, pos)| == |G| && |Wire(G, fate, pos)[r]| == |G[r]|
    ensures Offers(G)[r][c] == Moore(|G|, r, c)
    ensures Wire(G, fate, pos)[r][c] ==
              G[r][c].(neighbors := Admit(G[r][c].kind, G[r][c].neighbors, Offers(G)[r][c], fate, pos + Offset(WireDraws(G), r, c)).neighbors)
  {
    OffersShaped(G);
    WireByAt(G, Offers(G), WireDraws(G), fate, pos, r, c);
  }

  /** Wiring changes only the neighbour list of cell (r, c): its behaviour and its states stay. */
  lemma WireKeepsAt(G: Grid, fate: Rolls, pos: nat, r: nat, c: nat)
    requires r < |G| && c < |G[r]|
    ensures |Wire(G, fate, pos)| == |G| && |Wire(G, fate, pos)[r]| == |G[r]|
    ensures Wire(G, fate, pos)[r][c].(neighbors := G[r][c].neighbors) == G[r][c]
  {
    WiredAt(G, fate, pos, r, c);
  }

  /** A non-introvert cell with an empty list ends up with exactly its Moore neighbourhood, drawing nothing. */
  lemma WirePlain(G: Grid, fate: Rolls, pos: nat, r: nat, c: nat)
    requires Square(G) && r < |G| && c < |G| && G[r][c].kind != Introvert && G[r][c].neighbors == []
    ensures Wire(G, fate, pos)[r][c] == G[r][c].(neighbors := Moore(|G|, r, c))
    ensures WireDraws(G)[r][c] == 0
  {
    WiredAt(G, fate, pos, r, c);
    MooreSize(|G|, r, c);
    PlainFromEmpty(G[r][c].kind, Offers(G)[r][c], fate, pos + Offset(WireDraws(G), r, c));
  }

  /**
   * An introvert cell with an empty list keeps exactly the Moore neighbours
   * whose roll, one per offer in offer order, exceeds the avoidance rate
   * (so, by KeptSubsequence, a subsequence of them).
   */
  lemma WireIntrovert(G: Grid, fate: Rolls, pos: nat, r: nat, c: nat)
    requires Square(G) && r < |G| && c < |G| && G[r][c].kind == Introvert && G[r][c].neighbors == []
    ensures Wire(G, fate, pos)[r][c].neighbors == Kept(Moore(|G|, r, c), fate, pos + Offset(WireDraws(G), r, c))
  {
    WiredAt(G, fate, pos, r, c);
    MooreSize(|G|, r, c);
    IntrovertFromEmpty(Introvert, [], Offers(G)[r][c], fate, pos + Offset(WireDraws(G), r, c));
  }

  /**
   * A cell with an empty list ends up with its Moore neighbourhood, pruned
   * by its own rolls when it is an introvert.
   */
  lemma WireFromEmpty(G: Grid, fate: Rolls, pos: nat, r: nat, c: nat)
    requires Square(G) && r < |G| && c < |G| && G[r][c].neighbors == []
    ensures Wire(G, fate, pos)[r][c].neighbors ==
              if G[r][c].kind == Introvert then Kept(Moore(|G|, r, c), fate, pos + Offset(WireDraws(G), r, c))
              else Moore(|G|, r, c)
  {
    if G[r][c].kind == Introvert {
      WireIntrovert(G, fate, pos, r, c);
    } else {
      WirePlain(G, fate, pos, r, c);
    }
  }

  /** No cell with an empty list is wired to itself. */
  lemma WireIrreflexive(G: Grid, fate: Rolls, pos: nat, r: nat, c: nat)
    requires r < |G| && c < |G[r]| && G[r][c].neighbors == []
    ensures Pos(r, c) !in Wire(G, fate, pos)[r][c].neighbors
  {
    WiredAt(G, fate, pos, r, c);
    MooreIrreflexive(|G|, r, c);
    AdmitFrom(G[r][c].kind, [], Offers(G)[r][c], fate, pos + Offset(WireDraws(G), r, c), Pos(r, c));
  }

  /**
   * When no cell is an introvert and every list starts empty, the wiring is
   * symmetric: q is a neighbour of p exactly when p is a neighbour of q.
   */
  lemma WireSymmetric(G: Grid, fate: Rolls, pos: nat, p: Pos, q: Pos)
    requires Square(G) && InGrid(|G|, p) && InGrid(|G|, q)
    requires forall r, c :: 0 <= r < |G| && 0 <= c < |G| ==> G[r][c].kind != Introvert && G[r][c].neighbors == []
    ensures q in Wire(G, fate, pos)[p.row][p.col].neighbors <==> p in Wire(G, fate, pos)[q.row][q.col].neighbors
  {
    WirePlain(G, fate, pos, p.row, p.col);
    WirePlain(G, fate, pos, q.row, q.col);
    MooreSymmetric(|G|, p, q);
  }

  /**
   * Pruning is one-sided: a non-introvert with an empty list keeps every
   * on-grid neighbour, introverts included, whatever those introverts drop.
   */
  lemma PruningOneSided(G: Grid, fate: Rolls, pos: nat, p: Pos, q: Pos)
    requires Square(G) && InGrid(|G|, p) && InGrid(|G|, q) && Adjacent(p, q)
    requires G[p.row][p.col].kind != Introvert && G[p.row][p.col].neighbors == []
    ensures q in Wire(G, fate, pos)[p.row][p.col].neighbors
  {
    WirePlain(G, fate, pos, p.row, p.col);
    MooreMembers(|G|, p.row, p.col, q);
  }

  // ---------------------------------------------------------------------------
  // SIRGrid.populate

  /** The initial state populate gives a cell: infectious exactly when its roll is below the percentage. */
  function SeedState(roll: real, initInfectedPercent: real): SIRState
  {
    if roll < initInfectedPercent then Infectious else Susceptible
  }

  /** The grid SIRGrid.populate creates before wiring: plain cells, one roll each in row-major order. */
  function Seeded(n: nat, initInfectedPercent: real, infectionRate: real, recoveryRate: real, random: Rolls, pos: nat): Grid
  {
    seq(n, r requires 0 <= r < n =>
      seq(n, c requires 0 <= c < n =>
        Initial(Baseline, SeedState(random(pos + r * n + c), initInfectedPercent), infectionRate, recoveryRate)))
  }

  /** Two grids of the same shape with the same cells are equal. */
  lemma SameGrid(A: Grid, B: Grid)
    requires |A| == |B| && forall r :: 0 <= r < |A| ==> |A[r]| == |B[r]|
    requires forall r, c :: 0 <= r < |A| && 0 <= c < |A[r]| ==> A[r][c] == B[r][c]
    ensures A == B
  {
    forall r | 0 <= r < |A|
      ensures A[r] == B[r]
    {
      assert A[r] == B[r];
    }
  }

  /** A row with no cell in state s counts none. */
  lemma {:induction false} CountRowZero(row: seq<CellValue>, s: SIRState)
    requires forall i :: 0 <= i < |row| ==> row[i].current != s
    ensures CountRow(row, s) == 0
  {
    if row != [] {
      var n := |row| - 1;
      assert forall i :: 0 <= i < n ==> row[..n][i] == row[i];
      CountRowZero(row[..n], s);
    }
  }

  /** A grid with no cell in state s counts none. */
  lemma {:induction false} CountZero(G: Grid, s: SIRState)
    requires forall r, c :: 0 <= r < |G| && 0 <= c < |G[r]| ==> G[r][c].current != s
    ensures Count(G, s) == 0
  {
    if G != [] {
      var n := |G| - 1;
      assert forall r :: 0 <= r < n ==> G[..n][r] == G[r];
      CountZero(G[..n], s);
      CountRowZero(G[n], s);
    }
  }

  /** A sweep in which no cell draws takes no draws. */
  lemma {:induction false} TotalZero(D: seq<seq<nat>>, r: nat)
    requires r <= |D| && forall i, j :: 0 <= i < |D| && 0 <= j < |D[i]| ==> D[i][j] == 0
    ensures RowsTotal(D, r) == 0
  {
    if r > 0 {
      TotalZero(D, r - 1);
      RowZero(D[r - 1], |D[r - 1]|);
    }
  }

  /** A row in which no cell draws takes no draws. */
  lemma {:induction false} RowZero(row: seq<nat>, c: nat)
    requires c <= |row| && forall j :: 0 <= j < |row| ==> row[j] == 0
    ensures RowTotal(row, c) == 0
  {
    if c > 0 {
      RowZero(row, c - 1);
    }
  }

  /** Cell (r, c) of the seeded grid. */
  lemma SeededAt(n: nat, initInfectedPercent: real, infectionRate: real, recoveryRate: real,
                 random: Rolls, pos: nat, r: nat, c: nat)
    requires r < n && c < n
    ensures var S := Seeded(n, initInfectedPercent, infectionRate, recoveryRate, random, pos);
      && |S| == n && |S[r]| == n
      && S[r][c] == Initial(Baseline, SeedState(random(pos + r * n + c), initInfectedPercent), infectionRate, recoveryRate)
  {
  }

  /** One cell of what SIRGrid.populate leaves behind. */
  lemma PlainCell(n: nat, initInfectedPercent: real, infectionRate: real, recoveryRate: real,
                  random: Rolls, pos: nat, fate: Rolls, fatePos: nat, r: nat, c: nat)
    requires r < n && c < n
    ensures var W := Wire(Seeded(n, initInfectedPercent, infectionRate, recoveryRate, random, pos), fate, fatePos);
      && |W| == n && |W[r]| == n
      && W[r][c] == Initial(Baseline, SeedState(random(pos + r * n + c), initInfectedPercent), infectionRate, recoveryRate)
                      .(neighbors := Moore(n, r, c))
  {
    var S := Seeded(n, initInfectedPercent, infectionRate, recoveryRate, random, pos);
    SeededAt(n, initInfectedPercent, infectionRate, recoveryRate, random, pos, r, c);
    WirePlain(S, fate, fatePos, r, c);
  }

  /**
   * What SIRGrid.populate leaves behind: every cell is a plain cell,
   * infectious exactly when its own roll (row-major, one per cell) is below
   * the percentage, and wired to its full Moore neighbourhood.
   */
  lemma PlainPopulation(n: nat, initInfectedPercent: real, infectionRate: real, recoveryRate: real,
                        random: Rolls, pos: nat, fate: Rolls, fatePos: nat)
    ensures var W := Wire(Seeded(n, initInfectedPercent, infectionRate, recoveryRate, random, pos), fate, fatePos);
      && |W| == n && Square(W)
      && forall r, c :: 0 <= r < n && 0 <= c < n ==>
           W[r][c] == Initial(Baseline, SeedState(random(pos + r * n + c), initInfectedPercent), infectionRate, recoveryRate)
                        .(neighbors := Moore(n, r, c))
  {
    forall r, c | 0 <= r < n && 0 <= c < n
    {
      PlainCell(n, initInfectedPercent, infectionRate, recoveryRate, random, pos, fate, fatePos, r, c);
    }
  }

  /** The seeded grid is square, linked and settled, and wiring its plain cells draws nothing. */
  lemma SeededValid(n: nat, initInfectedPercent: real, infectionRate: real, recoveryRate: real, random: Rolls, pos: nat)
    ensures var S := Seeded(n, initInfectedPercent, infectionRate, recoveryRate, random, pos);
      Square(S) && Linked(S) && AllSettled(S) && Total(WireDraws(S)) == 0
  {
    var S: Grid := Seeded(n, initInfectedPercent, infectionRate, recoveryRate, random, pos);
    forall r, c | 0 <= r < n && 0 <= c < n
      ensures |S[r]| == n && S[r][c].neighbors == [] && S[r][c].kind == Baseline && Settled(S[r][c])
    {
      SeededAt(n, initInfectedPercent, infectionRate, recoveryRate, random, pos, r, c);
    }
    TotalZero(WireDraws(S), n);
  }

  /**
   * The populated grid is square, linked and settled, no cell starts
   * recovered, and the wiring of plain cells draws nothing.
   */
  lemma PlainPopulationValid(n: nat, initInfectedPercent: real, infectionRate: real, recoveryRate: real,
                             random: Rolls, pos: nat, fate: Rolls, fatePos: nat)
    ensures var S := Seeded(n, initInfectedPercent, infectionRate, recoveryRate, random, pos);
      var W := Wire(S, fate, fatePos);
      && Square(S) && Linked(S) && AllSettled(S) && Total(WireDraws(S)) == 0
      && Linked(W) && AllSettled(W) && Count(W, Recovered) == 0
  {
    var S := Seeded(n, initInfectedPercent, infectionRate, recoveryRate, random, pos);
    var W := Wire(S, fate, fatePos);
    SeededValid(n, initInfectedPercent, infectionRate, recoveryRate, random, pos);
    assert Linked(W) by {
      WireLinked(S, fate, fatePos);
    }
    assert AllSettled(W) && Count(W, Recovered) == 0 by {
      PlainPopulation(n, initInfectedPercent, infectionRate, recoveryRate, random, pos, fate, fatePos);
      CountZero(W, Recovered);
    }
  }
}
