/**
 * SIRGrid: the square population array of cells, its neighbourhood wiring,
 * the two-phase update and the demographic queries. The grid keeps a ghost
 * copy of its cells as values (Contents); every method is proved against
 * the pure sweeps of module Sweeps on that copy.
 */
module Grids {
  import opened States
  import opened Rules
  import opened Topology
  import opened Cells
  import opened Sweeps
  import opened Populations

  class SIRGrid {
    const sideSize: nat
    /** The population; every slot is null until populate fills it. */
    const population: array2<Cell?>
    /** The cells as values, row first. */
    ghost var Contents: Grid
    /** The cells and their neighbourhood arrays. */
    ghost var Repr: set<object>
    /** The grid position each cell and each neighbourhood array belongs to. */
    ghost var Owner: map<object?, Pos>

    /**
     * The array has the grid's dimensions and holds distinct, well-formed
     * cells, each with its own neighbourhood array.
     */
    ghost predicate Structure()
      reads this, Repr, population
    {
      && population.Length0 == sideSize && population.Length1 == sideSize
      && (forall r, c :: 0 <= r < sideSize && 0 <= c < sideSize ==>
            && population[r, c] != null && population[r, c] in Repr && population[r, c].neighborhood in Repr
            && population[r, c] in Owner && Owner[population[r, c]] == Pos(r, c)
            && population[r, c].neighborhood in Owner && Owner[population[r, c].neighborhood] == Pos(r, c)
            && population[r, c].Valid())
    }

    /** Each cell's value is the matching entry of Contents. */
    ghost predicate Mirrors()
      requires Structure()
      reads this, Repr, population
    {
      && |Contents| == sideSize && Square(Contents)
      && forall r, c :: 0 <= r < sideSize && 0 <= c < sideSize ==> population[r, c].Value() == Contents[r][c]
    }

    /** The grid between operations: structured, mirrored, every neighbour on the grid, every cell settled. */
    ghost predicate Valid()
      reads this, Repr, population
    {
      Structure() && Mirrors() && Linked(Contents) && AllSettled(Contents)
    }

    /** A grid of the given side with no cells yet. */
    constructor (size: nat)
      ensures sideSize == size && population.Length0 == size && population.Length1 == size
      ensures forall r, c :: 0 <= r < size && 0 <= c < size ==> population[r, c] == null
      ensures fresh(population)
    {
      sideSize := size;
      population := new Cell?[size, size]((_, _) => null);
      Contents := [];
      Repr := {};
      Owner := map[];
    }

    /** getSize: the length of one side of the square grid, populated or not. */
    function GetSize(): (n: nat)
      reads this, Repr, population
      ensures n == sideSize
      ensures Structure() ==> n == population.Length0 == population.Length1
      ensures Valid() ==> n == |Contents| && forall r :: 0 <= r < n ==> |Contents[r]| == n
    {
      sideSize
    }

    /** The inner loop of getInfectious: the cells of one row in state s. */
    method CountInRow(row: nat, s: SIRState) returns (k: nat)
      requires Structure() && Mirrors() && row < sideSize
      ensures k == CountRow(Contents[row], s)
    {
      k := 0;
      var col := 0;
      while col < sideSize
        invariant 0 <= col <= sideSize
        invariant k == CountRow(Contents[row][..col], s)
      {
        if population[row, col].currentState == s {
          k := k + 1;
        }
        assert Contents[row][..col + 1][..col] == Contents[row][..col];
        col := col + 1;
      }
      assert Contents[row][..col] == Contents[row];
    }

    /** getInfectious: the number of cells currently infectious. */
    method GetInfectious() returns (numInfected: nat)
      requires Valid()
      ensures numInfected == Count(Contents, Infectious)
    {
      numInfected := 0;
      var row := 0;
      while row < sideSize
        invariant 0 <= row <= sideSize
        invariant numInfected == Count(Contents[..row], Infectious)
      {
        var k := CountInRow(row, Infectious);
        numInfected := numInfected + k;
        CountExtend(Contents, row, Infectious);
        row := row + 1;
      }
      assert Contents[..row] == Contents;
    }

    /** The inner loop of getDemographics: the cells of one row in each state. */
    method TallyRow(row: nat) returns (numSusceptible: nat, numInfected: nat, numRecovered: nat)
      requires Structure() && Mirrors() && row < sideSize
      ensures numSusceptible == CountRow(Contents[row], Susceptible)
      ensures numInfected == CountRow(Contents[row], Infectious)
      ensures numRecovered == CountRow(Contents[row], Recovered)
    {
      numSusceptible, numInfected, numRecovered := 0, 0, 0;
      var col := 0;
      while col < sideSize
        invariant 0 <= col <= sideSize
        invariant numSusceptible == CountRow(Contents[row][..col], Susceptible)
        invariant numInfected == CountRow(Contents[row][..col], Infectious)
        invariant numRecovered == CountRow(Contents[row][..col], Recovered)
      {
        var state := population[row, col].currentState;
        if state == Susceptible {
          numSusceptible := numSusceptible + 1;
        } else if state == Infectious {
          numInfected := numInfected + 1;
        } else {
          numRecovered := numRecovered + 1;
        }
        assert Contents[row][..col + 1][..col] == Contents[row][..col];
        col := col + 1;
      }
      assert Contents[row][..col] == Contents[row];
    }

    /** getDemographics: the numbers of susceptible, infectious and recovered cells, in that order. */
    method GetDemographics() returns (demographics: array<int>)
      requires Valid()
      ensures fresh(demographics) && demographics.Length == 3
      ensures demographics[0] == Count(Contents, Susceptible)
      ensures demographics[1] == Count(Contents, Infectious)
      ensures demographics[2] == Count(Contents, Recovered)
      ensures demographics[0] + demographics[1] + demographics[2] == sideSize * sideSize
    {
      var numSusceptible, numInfected, numRecovered := 0, 0, 0;
      var row := 0;
      while row < sideSize
        invariant 0 <= row <= sideSize
        invariant numSusceptible == Count(Contents[..row], Susceptible)
        invariant numInfected == Count(Contents[..row], Infectious)
        invariant numRecovered == Count(Contents[..row], Recovered)
      {
        var s, i, r := TallyRow(row);
        numSusceptible, numInfected, numRecovered := numSusceptible + s, numInfected + i, numRecovered + r;
        CountExtend(Contents, row, Susceptible);
        CountExtend(Contents, row, Infectious);
        CountExtend(Contents, row, Recovered);
        row := row + 1;
      }
      assert Contents[..row] == Contents;
      CountSum(Contents);
      demographics := new int[3];
      demographics[0] := numSusceptible;
      demographics[1] := numInfected;
      demographics[2] := numRecovered;
    }

    /** getPopulation: a fresh sideSize-by-sideSize copy of every cell's current state. */
    method GetPopulation() returns (populationStates: array2<SIRState>)
      requires Valid()
      ensures fresh(populationStates)
      ensures populationStates.Length0 == sideSize && populationStates.Length1 == sideSize
      ensures forall r, c :: 0 <= r < sideSize && 0 <= c < sideSize ==> populationStates[r, c] == Contents[r][c].current
    {
      populationStates := new SIRState[sideSize, sideSize]((_, _) => Susceptible);
      var row := 0;
      while row < sideSize
        invariant 0 <= row <= sideSize
        invariant forall r, c :: 0 <= r < row && 0 <= c < sideSize ==> populationStates[r, c] == Contents[r][c].current
      {
        var col := 0;
        while col < sideSize
          invariant 0 <= col <= sideSize
          invariant forall r, c :: 0 <= r < row && 0 <= c < sideSize ==> populationStates[r, c] == Contents[r][c].current
          invariant forall c :: 0 <= c < col ==> populationStates[row, c] == Contents[row][c].current
        {
          populationStates[row, col] := population[row, col].currentState;
          col := col + 1;
        }
        row := row + 1;
      }
    }

    /**
     * While phase 1 runs every cell still shows what it showed in the
     * snapshot G, so the cell at (r, c) sees exactly SeenIn(G, its neighbours).
     */
    lemma SeesSnapshot(G: Grid, r: nat, c: nat)
      requires Structure() && Mirrors() && |G| == sideSize && Square(G) && Linked(G)
      requires forall r', c' :: 0 <= r' < sideSize && 0 <= c' < sideSize ==>
                 Advertised(Contents[r'][c']) == Advertised(G[r'][c']) && Contents[r'][c'].neighbors == G[r'][c'].neighbors
      requires r < sideSize && c < sideSize
      ensures population[r, c].Sees(population, SeenIn(G, G[r][c].neighbors))
    {
      var cell := population[r, c];
      var ns := G[r][c].neighbors;
      assert cell.neighborhood[..cell.totalNeighbors] == ns;
      forall t | 0 <= t < |ns|
        ensures var p := cell.neighborhood[t];
          && 0 <= p.row < sideSize && 0 <= p.col < sideSize
          && population[p.row, p.col].currentState == SeenIn(G, ns)[t].state
          && population[p.row, p.col].GetInfectionRate() == SeenIn(G, ns)[t].rate
      {
        var p := cell.neighborhood[t];
        assert p == ns[t] && p in ns;
        assert population[p.row, p.col].Value() == Contents[p.row][p.col];
      }
    }

    /**
     * Phase 1 for the cell at (row, col), part way through a sweep towards
     * the target P: the cells before it are computed, it and the rest still
     * hold their snapshot values. Its next fields become those of P, its
     * rolls end where the next cell's start, and no other cell changes.
     */
    method ComputeCell(ghost G: Grid, ghost P: Grid, ghost D: seq<seq<nat>>, fate: Rolls, pos: nat,
                       row: nat, col: nat, start: nat) returns (cursor: nat)
      requires Structure() && Mirrors() && |G| == sideSize && Linked(G) && PhaseTarget(G, P, D, fate, pos)
      requires row < sideSize && col < sideSize && start == pos + Offset(D, row, col)
      requires forall r, c :: 0 <= r < sideSize && 0 <= c < sideSize ==>
                 Contents[r][c] == if Before(r, c, row, col) then P[r][c] else G[r][c]
      modifies this, Repr
      ensures Structure() && Mirrors() && Repr == old(Repr)
      ensures forall r, c :: 0 <= r < sideSize && 0 <= c < sideSize ==>
                Contents[r][c] == if Before(r, c, row, col + 1) then P[r][c] else G[r][c]
      ensures cursor == pos + Offset(D, row, col + 1)
    {
      MidSweep(G, P, D, fate, pos, Contents, row, col);
      SweepStep(G, P, D, fate, pos, Contents, row, col);
      cursor := NextStateAt(G, row, col, fate, start);
    }

    /**
     * The cell at (row, col) computes its next fields from the snapshot G,
     * which every cell still shows; no other cell changes.
     */
    method NextStateAt(ghost G: Grid, row: nat, col: nat, fate: Rolls, pos: nat) returns (cursor: nat)
      requires Structure() && Mirrors() && |G| == sideSize && Square(G) && Linked(G)
      requires forall r, c :: 0 <= r < sideSize && 0 <= c < sideSize ==>
                 Advertised(Contents[r][c]) == Advertised(G[r][c]) && Contents[r][c].neighbors == G[r][c].neighbors
      requires row < sideSize && col < sideSize && Contents[row][col] == G[row][col]
      modifies this, Repr
      ensures Structure() && Mirrors() && Repr == old(Repr)
      ensures var o := Transition(G[row][col], SeenIn(G, G[row][col].neighbors), fate, pos);
        && Contents == old(Contents)[row := old(Contents)[row][col := Apply(G[row][col], o)]]
        && cursor == o.cursor
    {
      SeesSnapshot(G, row, col);
      var cell := population[row, col];
      cursor := cell.UpdateNextState(population, SeenIn(G, G[row][col].neighbors), fate, pos);
      Contents := Contents[row := Contents[row][col := cell.Value()]];
      Resynced(Pos(row, col));
    }

    /** Phase 1 over one row, against a target P and draw counts D as in ComputeSweep. */
    method ComputeRow(ghost G: Grid, ghost P: Grid, ghost D: seq<seq<nat>>, fate: Rolls, pos: nat, row: nat, start: nat)
      returns (cursor: nat)
      requires Structure() && Mirrors() && |G| == sideSize && Linked(G) && PhaseTarget(G, P, D, fate, pos)
      requires row < sideSize && start == pos + RowsTotal(D, row)
      requires forall r, c :: 0 <= r < sideSize && 0 <= c < sideSize ==>
                 Contents[r][c] == if r < row then P[r][c] else G[r][c]
      modifies this, Repr
      ensures Structure() && Mirrors() && Repr == old(Repr)
      ensures forall r, c :: 0 <= r < sideSize && 0 <= c < sideSize ==>
                Contents[r][c] == if r <= row then P[r][c] else G[r][c]
      ensures cursor == pos + RowsTotal(D, row + 1)
    {
      cursor := start;
      var col := 0;
      while col < sideSize
        invariant 0 <= col <= sideSize
        invariant Structure() && Mirrors() && Repr == old(Repr)
        invariant forall r, c :: 0 <= r < sideSize && 0 <= c < sideSize ==>
                    Contents[r][c] == if Before(r, c, row, col) then P[r][c] else G[r][c]
        invariant cursor == pos + Offset(D, row, col)
      {
        cursor := ComputeCell(G, P, D, fate, pos, row, col, cursor);
        col := col + 1;
      }
    }

    /**
     * The phase-1 sweep against any target P and draw counts D that agree
     * with Transition cell by cell; ComputeNextStates instantiates them
     * with PhaseOne and PhaseDraws.
     */
    method ComputeSweep(ghost G: Grid, ghost P: Grid, ghost D: seq<seq<nat>>, fate: Rolls, pos: nat) returns (cursor: nat)
      requires Valid() && Contents == G && PhaseTarget(G, P, D, fate, pos)
      modifies this, Repr
      ensures Structure() && Mirrors() && Repr == old(Repr)
      ensures Contents == P && cursor == pos + Total(D)
    {
      cursor := pos;
      var row := 0;
      while row < sideSize
        invariant 0 <= row <= sideSize
        invariant Structure() && Mirrors() && Repr == old(Repr)
        invariant forall r, c :: 0 <= r < sideSize && 0 <= c < sideSize ==>
                    Contents[r][c] == if r < row then P[r][c] else G[r][c]
        invariant cursor == pos + RowsTotal(D, row)
      {
        cursor := ComputeRow(G, P, D, fate, pos, row, cursor);
        row := row + 1;
      }
      SameGrid(Contents, P);
    }

    /** Phase 1 of update: every cell, in row-major order, computes its next fields. */
    method ComputeNextStates(fate: Rolls, pos: nat) returns (cursor: nat)
      requires Valid()
      modifies this, Repr
      ensures Structure() && Mirrors() && Repr == old(Repr)
      ensures Contents == PhaseOne(old(Contents), fate, pos)
      ensures cursor == pos + Total(PhaseDraws(old(Contents)))
    {
      ghost var G := Contents;
      PhaseOneCells(G, fate, pos);
      cursor := ComputeSweep(G, PhaseOne(G, fate, pos), PhaseDraws(G), fate, pos);
    }

    /** Phase 2 for the cell at (row, col): commit its next fields; no other cell changes. */
    method CommitCell(row: nat, col: nat)
      requires Structure() && Mirrors() && row < sideSize && col < sideSize
      modifies this, Repr
      ensures Structure() && Mirrors() && Repr == old(Repr)
      ensures Contents == old(Contents)[row := old(Contents)[row][col := Commit(old(Contents)[row][col])]]
    {
      var cell := population[row, col];
      cell.UpdateCurrentState();
      Contents := Contents[row := Contents[row][col := cell.Value()]];
      Resynced(Pos(row, col));
    }

    /** Phase 2 of update: every cell commits its next fields. */
    method CommitStates()
      requires Structure() && Mirrors()
      modifies this, Repr
      ensures Structure() && Mirrors() && Repr == old(Repr)
      ensures Contents == PhaseTwo(old(Contents))
    {
      ghost var H := Contents;
      ghost var C := PhaseTwo(H);
      var row := 0;
      while row < sideSize
        invariant 0 <= row <= sideSize
        invariant Structure() && Mirrors() && Repr == old(Repr)
        invariant forall r, c :: 0 <= r < sideSize && 0 <= c < sideSize ==>
                    Contents[r][c] == if r < row then C[r][c] else H[r][c]
      {
        var col := 0;
        while col < sideSize
          invariant 0 <= col <= sideSize
          invariant Structure() && Mirrors() && Repr == old(Repr)
          invariant forall r, c :: 0 <= r < sideSize && 0 <= c < sideSize ==>
                      Contents[r][c] == if Before(r, c, row, col) then C[r][c] else H[r][c]
        {
          CommitCell(row, col);
          col := col + 1;
        }
        row := row + 1;
      }
      SameGrid(Contents, C);
    }

    /**
     * update: compute every cell's next state from the pre-tick snapshot,
     * then commit every cell. The new grid is Tick of the old one, and the
     * sweep draws exactly the rolls PhaseDraws counts.
     */
    method Update(fate: Rolls, pos: nat) returns (cursor: nat)
      requires Valid()
      modifies this, Repr
      ensures Valid() && Repr == old(Repr)
      ensures Contents == Tick(old(Contents), fate, pos)
      ensures cursor == pos + Total(PhaseDraws(old(Contents)))
    {
      cursor := ComputeNextStates(fate, pos);
      CommitStates();
      TickKeeps(old(Contents), fate, pos);
    }

    /**
     * The body of makeNeighborhoods' offset loops: the position at offset
     * (dr, dc) is offered to the cell unless it is the cell itself or lies
     * off the grid.
     */
    method OfferSlot(cell: Cell, r: nat, c: nat, dr: int, dc: int, fate: Rolls, pos: nat) returns (cursor: nat)
      requires cell.Valid()
      modifies cell`totalNeighbors, cell.neighborhood
      ensures cell.Valid()
      ensures var l := Admit(cell.kind, old(cell.Value()).neighbors, Slot(sideSize, r, c, dr, dc), fate, pos);
        cell.Value() == old(cell.Value()).(neighbors := l.neighbors) && cursor == l.cursor
    {
      cursor := pos;
      if dr != 0 || dc != 0 {
        if 0 <= r + dr < sideSize && 0 <= c + dc < sideSize {
          assert [Pos(r + dr, c + dc)][..0] == [];
          cursor := cell.AddNeighbor(Pos(r + dr, c + dc), fate, cursor);
        }
      }
    }

    /** The inner offset loop of makeNeighborhoods: dc runs from -1 to 1 for a fixed dr. */
    method OfferRow(cell: Cell, r: nat, c: nat, dr: int, fate: Rolls, pos: nat) returns (cursor: nat)
      requires cell.Valid()
      modifies cell`totalNeighbors, cell.neighborhood
      ensures cell.Valid()
      ensures var l := Admit(cell.kind, old(cell.Value()).neighbors, RowSlots(sideSize, r, c, dr, 2), fate, pos);
        cell.Value() == old(cell.Value()).(neighbors := l.neighbors) && cursor == l.cursor
    {
      ghost var v := cell.Value();
      cursor := pos;
      var dc := -1;
      while dc <= 1
        invariant -1 <= dc <= 2
        invariant cell.Valid()
        invariant var l := Admit(cell.kind, v.neighbors, RowSlots(sideSize, r, c, dr, dc), fate, pos);
          cell.Value() == v.(neighbors := l.neighbors) && cursor == l.cursor
      {
        AdmitAppend(cell.kind, v.neighbors, RowSlots(sideSize, r, c, dr, dc), Slot(sideSize, r, c, dr, dc), fate, pos);
        cursor := OfferSlot(cell, r, c, dr, dc, fate, cursor);
        dc := dc + 1;
      }
    }

    /**
     * The two offset loops of makeNeighborhoods for one cell: every position
     * one step away that lies on the grid is offered to the cell, dr before
     * dc, each from -1 to 1.
     */
    method OfferMoore(cell: Cell, r: nat, c: nat, fate: Rolls, pos: nat) returns (cursor: nat)
      requires cell.Valid()
      modifies cell`totalNeighbors, cell.neighborhood
      ensures cell.Valid()
      ensures var l := Admit(cell.kind, old(cell.Value()).neighbors, Offered(sideSize, r, c, 2), fate, pos);
        cell.Value() == old(cell.Value()).(neighbors := l.neighbors) && cursor == l.cursor
    {
      ghost var v := cell.Value();
      cursor := pos;
      var dr := -1;
      while dr <= 1
        invariant -1 <= dr <= 2
        invariant cell.Valid()
        invariant var l := Admit(cell.kind, v.neighbors, Offered(sideSize, r, c, dr), fate, pos);
          cell.Value() == v.(neighbors := l.neighbors) && cursor == l.cursor
      {
        AdmitAppend(cell.kind, v.neighbors, Offered(sideSize, r, c, dr), RowSlots(sideSize, r, c, dr, 2), fate, pos);
        cursor := OfferRow(cell, r, c, dr, fate, cursor);
        dr := dr + 1;
      }
    }

    /** The cell at (row, col) is offered its Moore neighbours; no other cell changes. */
    method NeighborhoodAt(row: nat, col: nat, ghost offered: seq<Pos>, fate: Rolls, pos: nat) returns (cursor: nat)
      requires Structure() && Mirrors() && row < sideSize && col < sideSize && offered == Moore(sideSize, row, col)
      modifies this, Repr
      ensures Structure() && Mirrors() && Repr == old(Repr)
      ensures var a := old(Contents)[row][col];
        var l := Admit(a.kind, a.neighbors, offered, fate, pos);
        Contents == old(Contents)[row := old(Contents)[row][col := a.(neighbors := l.neighbors)]] && cursor == l.cursor
    {
      var cell := population[row, col];
      cursor := OfferMoore(cell, row, col, fate, pos);
      Contents := Contents[row := Contents[row][col := cell.Value()]];
      Resynced(Pos(row, col));
    }

    /**
     * After the cell at (row, col) and its array have changed, and nothing
     * else the grid owns, recording the cell's new value in Contents restores
     * the grid's structure and mirror.
     */
    twostate lemma Resynced(at: Pos)
      requires old(Structure()) && old(Mirrors()) && 0 <= at.row < sideSize && 0 <= at.col < sideSize
      requires Repr == old(Repr) && Owner == old(Owner) && unchanged(population)
      requires unchanged(old(Repr) - {this, population[at.row, at.col], population[at.row, at.col].neighborhood})
      requires population[at.row, at.col].Valid()
      requires Contents == old(Contents)[at.row := old(Contents)[at.row][at.col := population[at.row, at.col].Value()]]
      ensures Structure() && Mirrors()
    {
      var cell := population[at.row, at.col];
      forall r, c | 0 <= r < sideSize && 0 <= c < sideSize && (r != at.row || c != at.col)
        ensures unchanged(population[r, c]) && unchanged(population[r, c].neighborhood)
      {
        assert Owner[population[r, c]] != Owner[cell];
        assert Owner[population[r, c].neighborhood] != Owner[cell.neighborhood];
      }
    }

    /** One cell of the wiring sweep towards the target W, as ComputeCell is for phase 1. */
    method WireCell(ghost G: Grid, ghost W: Grid, ghost D: seq<seq<nat>>, ghost M: seq<seq<seq<Pos>>>, fate: Rolls, pos: nat,
                    row: nat, col: nat, start: nat) returns (cursor: nat)
      requires Structure() && Mirrors() && |G| == sideSize && WireTarget(G, W, D, M, fate, pos) && MooreOffers(M, sideSize)
      requires row < sideSize && col < sideSize && start == pos + Offset(D, row, col)
      requires forall r, c :: 0 <= r < sideSize && 0 <= c < sideSize ==>
                 Contents[r][c] == if Before(r, c, row, col) then W[r][c] else G[r][c]
      modifies this, Repr
      ensures Structure() && Mirrors() && Repr == old(Repr)
      ensures forall r, c :: 0 <= r < sideSize && 0 <= c < sideSize ==>
                Contents[r][c] == if Before(r, c, row, col + 1) then W[r][c] else G[r][c]
      ensures cursor == pos + Offset(D, row, col + 1)
    {
      ghost var C := Contents;
      cursor := NeighborhoodAt(row, col, M[row][col], fate, start);
      WireStep(G, W, D, M, fate, pos, C, Contents, row, col, start, cursor);
    }

    /** The wiring sweep over one row. */
    method WireRow(ghost G: Grid, ghost W: Grid, ghost D: seq<seq<nat>>, ghost M: seq<seq<seq<Pos>>>, fate: Rolls, pos: nat, row: nat, start: nat)
      returns (cursor: nat)
      requires Structure() && Mirrors() && |G| == sideSize && WireTarget(G, W, D, M, fate, pos) && MooreOffers(M, sideSize)
      requires row < sideSize && start == pos + RowsTotal(D, row)
      requires forall r, c :: 0 <= r < sideSize && 0 <= c < sideSize ==>
                 Contents[r][c] == if r < row then W[r][c] else G[r][c]
      modifies this, Repr
      ensures Structure() && Mirrors() && Repr == old(Repr)
      ensures forall r, c :: 0 <= r < sideSize && 0 <= c < sideSize ==>
                Contents[r][c] == if r <= row then W[r][c] else G[r][c]
      ensures cursor == pos + RowsTotal(D, row + 1)
    {
      cursor := start;
      var cellCol := 0;
      while cellCol < sideSize
        invariant 0 <= cellCol <= sideSize
        invariant Structure() && Mirrors() && Repr == old(Repr)
        invariant forall r, c :: 0 <= r < sideSize && 0 <= c < sideSize ==>
                    Contents[r][c] == if Before(r, c, row, cellCol) then W[r][c] else G[r][c]
        invariant cursor == pos + Offset(D, row, cellCol)
      {
        cursor := WireCell(G, W, D, M, fate, pos, row, cellCol, cursor);
        cellCol := cellCol + 1;
      }
    }

    /**
     * The wiring sweep against a target W, draw counts D and offer lists M;
     * MakeNeighborhoods instantiates them with Wire, WireDraws and Offers.
     */
    method WireSweep(ghost G: Grid, ghost W: Grid, ghost D: seq<seq<nat>>, ghost M: seq<seq<seq<Pos>>>, fate: Rolls, pos: nat) returns (cursor: nat)
      requires Structure() && Mirrors() && Contents == G && WireTarget(G, W, D, M, fate, pos) && MooreOffers(M, sideSize)
      modifies this, Repr
      ensures Structure() && Mirrors() && Repr == old(Repr)
      ensures Contents == W && cursor == pos + Total(D)
    {
      cursor := pos;
      var cellRow := 0;
      while cellRow < sideSize
        invariant 0 <= cellRow <= sideSize
        invariant Structure() && Mirrors() && Repr == old(Repr)
        invariant forall r, c :: 0 <= r < sideSize && 0 <= c < sideSize ==>
                    Contents[r][c] == if r < cellRow then W[r][c] else G[r][c]
        invariant cursor == pos + RowsTotal(D, cellRow)
      {
        cursor := WireRow(G, W, D, M, fate, pos, cellRow, cursor);
        cellRow := cellRow + 1;
      }
      SameGrid(Contents, W);
    }

    /**
     * makeNeighborhoods: every cell, in row-major order, is offered its
     * Moore neighbours. The new grid is Wire of the old one, the sweep draws
     * one roll per offer to an introvert, and the grid stays valid.
     */
    method MakeNeighborhoods(fate: Rolls, pos: nat) returns (cursor: nat)
      requires Valid()
      modifies this, Repr
      ensures Valid() && Repr == old(Repr)
      ensures Contents == Wire(old(Contents), fate, pos)
      ensures cursor == pos + Total(WireDraws(old(Contents)))
    {
      WireCells(Contents, fate, pos);
      WireValid(Contents, fate, pos);
      OffersMoore(Contents);
      cursor := WireSweep(Contents, Wire(Contents, fate, pos), WireDraws(Contents), Offers(Contents), fate, pos);
    }
    // -------------------------------------------------------------------------
    // populate

    /**
     * populate's progress towards the grid S: every position before
     * (row, col) in row-major order holds its own well-formed cell, whose
     * value is the matching entry of S.
     */
    ghost predicate Placed(S: Grid, row: nat, col: nat)
      reads this, Repr, population
    {
      && population.Length0 == sideSize && population.Length1 == sideSize
      && |S| == sideSize && Square(S)
      && forall r, c :: 0 <= r < sideSize && 0 <= c < sideSize && Before(r, c, row, col) ==>
           && population[r, c] != null && population[r, c] in Repr && population[r, c].neighborhood in Repr
           && population[r, c] in Owner && Owner[population[r, c]] == Pos(r, c)
           && population[r, c].neighborhood in Owner && Owner[population[r, c].neighborhood] == Pos(r, c)
           && population[r, c].Valid() && population[r, c].Value() == S[r][c]
    }

    /** The step of both populate loops: a new cell of the given kind at (row, col). */
    method PlaceCell(ghost S: Grid, row: nat, col: nat, kind: Kind, initState: SIRState,
                     infectionRate: real, recoveryRate: real)
      requires Placed(S, row, col) && row < sideSize && col < sideSize
      requires S[row][col] == Initial(kind, initState, infectionRate, recoveryRate)
      modifies this`Repr, this`Owner, population
      ensures Placed(S, row, col + 1) && fresh(Repr - old(Repr))
    {
      var cell := new Cell(kind, initState, infectionRate, recoveryRate);
      population[row, col] := cell;
      Repr := Repr + {cell, cell.neighborhood};
      Owner := Owner[cell := Pos(row, col)][cell.neighborhood := Pos(row, col)];
    }

    /** A finished row: the next row starts with everything before it placed. */
    lemma PlacedRow(S: Grid, row: nat)
      requires Placed(S, row, sideSize)
      ensures Placed(S, row + 1, 0)
    {
    }

    /** A grid placed everywhere, with Contents set to S, mirrors S; a linked, settled S makes it valid. */
    lemma PlacedAll(S: Grid)
      requires Placed(S, sideSize, 0) && Contents == S && Linked(S) && AllSettled(S)
      ensures Valid()
    {
    }

    /** One row of SIRGrid.populate: a plain cell per column, each from its own draw. */
    method PopulateRow(ghost S: Grid, row: nat, initInfectedPercent: real, infectionRate: real, recoveryRate: real,
                       random: Rolls, start: nat) returns (cursor: nat)
      requires Placed(S, row, 0) && row < sideSize
      requires forall c :: 0 <= c < sideSize ==>
                 S[row][c] == Initial(Baseline, SeedState(random(start + c), initInfectedPercent), infectionRate, recoveryRate)
      modifies this`Repr, this`Owner, population
      ensures Placed(S, row + 1, 0) && fresh(Repr - old(Repr))
      ensures cursor == start + sideSize
    {
      cursor := start;
      var col := 0;
      while col < sideSize
        invariant col <= sideSize && Placed(S, row, col) && fresh(Repr - old(Repr))
        invariant cursor == start + col
      {
        var initState: SIRState;
        if random(cursor) < initInfectedPercent {
          initState := Infectious;
        } else {
          initState := Susceptible;
        }
        PlaceCell(S, row, col, Baseline, initState, infectionRate, recoveryRate);
        cursor := cursor + 1;
        col := col + 1;
      }
      PlacedRow(S, row);
    }

    /**
     * SIRGrid.populate: fill the grid in row-major order with plain cells,
     * each infectious exactly when its own draw from `random` is below
     * initInfectedPercent, then build the neighbourhoods. It takes one draw
     * per cell, and wiring plain cells takes no draw from fate.
     */
    method Populate(initInfectedPercent: real, infectionRate: real, recoveryRate: real,
                    random: Rolls, pos: nat, fate: Rolls, fatePos: nat) returns (cursor: nat, fateCursor: nat)
      requires population.Length0 == sideSize && population.Length1 == sideSize
      modifies this, population
      ensures Valid()
      ensures Contents == Wire(Seeded(sideSize, initInfectedPercent, infectionRate, recoveryRate, random, pos), fate, fatePos)
      ensures cursor == pos + sideSize * sideSize && fateCursor == fatePos
    {
      ghost var S := Seeded(sideSize, initInfectedPercent, infectionRate, recoveryRate, random, pos);
      SeededValid(sideSize, initInfectedPercent, infectionRate, recoveryRate, random, pos);
      Contents := S;
      Repr := {};
      Owner := map[];
      cursor := pos;
      var row := 0;
      while row < sideSize
        invariant row <= sideSize && Placed(S, row, 0) && fresh(Repr) && Contents == S
        invariant cursor == pos + row * sideSize
      {
        forall c | 0 <= c < sideSize
          ensures S[row][c] == Initial(Baseline, SeedState(random(cursor + c), initInfectedPercent), infectionRate, recoveryRate)
        {
          SeededAt(sideSize, initInfectedPercent, infectionRate, recoveryRate, random, pos, row, c);
        }
        cursor := PopulateRow(S, row, initInfectedPercent, infectionRate, recoveryRate, random, cursor);
        assert (row + 1) * sideSize == row * sideSize + sideSize;
        row := row + 1;
      }
      PlacedAll(S);
      fateCursor := MakeNeighborhoods(fate, fatePos);
    }

    /** One row of MixedSIRGrid.populate: a cell per column, each from its infection draw and its type draw. */
    method MixedPopulateRow(ghost S: Grid, row: nat, initInfectedPercent: real, infectionRate: real,
                            recoveryRate: real, cutoffs: Cutoffs, random: Rolls, start: nat) returns (cursor: nat)
      requires Placed(S, row, 0) && row < sideSize
      requires forall c :: 0 <= c < sideSize ==>
                 S[row][c] == MixedCell(random(start + 2 * c), random(start + 2 * c + 1),
                                        initInfectedPercent, infectionRate, recoveryRate, cutoffs)
      modifies this`Repr, this`Owner, population
      ensures Placed(S, row + 1, 0) && fresh(Repr - old(Repr))
      ensures cursor == start + 2 * sideSize
    {
      cursor := start;
      var col := 0;
      while col < sideSize
        invariant col <= sideSize && Placed(S, row, col) && fresh(Repr - old(Repr))
        invariant cursor == start + 2 * col
      {
        var initState: SIRState;
        if random(cursor) < initInfectedPercent {
          initState := Infectious;
        } else {
          initState := Susceptible;
        }
        var kind := KindFor(random(cursor + 1), cutoffs);
        PlaceCell(S, row, col, kind, initState, infectionRate, recoveryRate);
        cursor := cursor + 2;
        col := col + 1;
      }
      PlacedRow(S, row);
    }

    /** The loops of MixedSIRGrid.populate: every row in turn, two draws per cell, leaving the grid valid. */
    method MixedFill(ghost S: Grid, initInfectedPercent: real, infectionRate: real, recoveryRate: real,
                     cutoffs: Cutoffs, random: Rolls, pos: nat) returns (cursor: nat)
      requires MixedFrom(S, sideSize, initInfectedPercent, infectionRate, recoveryRate, cutoffs, random, pos)
      requires population.Length0 == sideSize && population.Length1 == sideSize
      modifies this, population
      ensures Valid() && Contents == S && fresh(Repr)
      ensures cursor == pos + 2 * (sideSize * sideSize)
    {
      MixedSeededValid(S, sideSize, initInfectedPercent, infectionRate, recoveryRate, cutoffs, random, pos);
      Contents := S;
      Repr := {};
      Owner := map[];
      cursor := pos;
      var row := 0;
      while row < sideSize
        invariant row <= sideSize && Placed(S, row, 0) && fresh(Repr) && Contents == S
        invariant cursor == pos + 2 * (row * sideSize)
      {
        assert forall c :: 0 <= c < sideSize ==> InfectionRoll(sideSize, row, c, pos) == cursor + 2 * c;
        cursor := MixedPopulateRow(S, row, initInfectedPercent, infectionRate, recoveryRate, cutoffs, random, cursor);
        assert (row + 1) * sideSize == row * sideSize + sideSize;
        row := row + 1;
      }
      PlacedAll(S);
    }

    /**
     * MixedSIRGrid.populate: fill the grid in row-major order, each cell
     * taking two draws from `random`: the infection draw, then the type draw
     * that picks the behaviour by the cumulative cut-offs. Then build the
     * neighbourhoods, which draws from fate once per offer to an introvert.
     */
    method MixedPopulate(initInfectedPercent: real, infectionRate: real, recoveryRate: real, maskedPercent: real,
                         quarantinePercent: real, contactTracingPercent: real, introvertPercent: real,
                         random: Rolls, pos: nat, fate: Rolls, fatePos: nat) returns (cursor: nat, fateCursor: nat)
      requires population.Length0 == sideSize && population.Length1 == sideSize
      modifies this, population
      ensures Valid()
      ensures var S := MixedSeeded(sideSize, initInfectedPercent, infectionRate, recoveryRate,
                                   MakeCutoffs(maskedPercent, quarantinePercent, contactTracingPercent, introvertPercent),
                                   random, pos);
        && Contents == Wire(S, fate, fatePos)
        && fateCursor == fatePos + Total(WireDraws(S))
      ensures cursor == pos + 2 * (sideSize * sideSize)
    {
      var cutoffs := MakeCutoffs(maskedPercent, quarantinePercent, contactTracingPercent, introvertPercent);
      ghost var S := MixedSeeded(sideSize, initInfectedPercent, infectionRate, recoveryRate, cutoffs, random, pos);
      MixedSeededFrom(sideSize, initInfectedPercent, infectionRate, recoveryRate, cutoffs, random, pos);
      cursor := MixedFill(S, initInfectedPercent, infectionRate, recoveryRate, cutoffs, random, pos);
      fateCursor := MakeNeighborhoods(fate, fatePos);
    }
  }
}
