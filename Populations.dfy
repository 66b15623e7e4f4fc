/**
 * MixedSIRGrid.populate as a value: the cumulative cut-offs that partition
 * the type roll among the five behaviours, the grid of fresh cells the two
 * rolls per cell produce, and what that grid looks like once its
 * neighbourhoods are built.
 */
module Populations {
  import opened States
  import opened Rules
  import opened Topology
  import opened Sweeps

  /** The four cut-offs of the type roll, in priority order. */
  datatype Cutoffs = Cutoffs(contact: real, quarantine: real, masked: real, introvert: real)

  /**
   * The cut-offs as running sums of the percentages, contact tracing first:
   * the band of each behaviour is as wide as its percentage, and the bands
   * together cover [0, the sum of the percentages).
   */
  function MakeCutoffs(maskedPercent: real, quarantinePercent: real, contactTracingPercent: real,
                       introvertPercent: real): (k: Cutoffs)
    ensures k.contact == contactTracingPercent
    ensures k.quarantine - k.contact == quarantinePercent
    ensures k.masked - k.quarantine == maskedPercent
    ensures k.introvert - k.masked == introvertPercent
    ensures k.introvert == contactTracingPercent + quarantinePercent + maskedPercent + introvertPercent
  {
    var contactCutoff := contactTracingPercent;
    var quarantineCutoff := contactTracingPercent + quarantinePercent;
    var maskedCutoff := quarantineCutoff + maskedPercent;
    var introvertCutoff := maskedCutoff + introvertPercent;
    Cutoffs(contactCutoff, quarantineCutoff, maskedCutoff, introvertCutoff)
  }

  /** The cut-offs never decrease along the priority order. */
  predicate Ordered(k: Cutoffs)
  {
    k.contact <= k.quarantine <= k.masked <= k.introvert
  }

  /** The place of each behaviour in the order the type roll tests them; a plain cell comes last. */
  function Priority(kind: Kind): nat
  {
    match kind
    case ContactTracing => 0
    case Quarantine => 1
    case Masked => 2
    case Introvert => 3
    case Baseline => 4
  }

  /** The cut-off that closes the band of priority i (i < 4). */
  function CutoffAt(k: Cutoffs, i: nat): real
    requires i < 4
  {
    if i == 0 then k.contact else if i == 1 then k.quarantine else if i == 2 then k.masked else k.introvert
  }

  /** The behaviour a type roll selects: the first cut-off, in priority order, that the roll is below. */
  function KindFor(roll: real, k: Cutoffs): Kind
  {
    if roll < k.contact then ContactTracing
    else if roll < k.quarantine then Quarantine
    else if roll < k.masked then Masked
    else if roll < k.introvert then Introvert
    else Baseline
  }

  /** A roll below the cut-off of priority i never selects a behaviour of lower priority. */
  lemma KindFirstBand(roll: real, k: Cutoffs, i: nat)
    requires i < 4 && roll < CutoffAt(k, i)
    ensures Priority(KindFor(roll, k)) <= i
  {
  }

  /** With ordered cut-offs, each behaviour is selected on exactly its own band. */
  lemma KindBands(roll: real, k: Cutoffs)
    requires Ordered(k)
    ensures KindFor(roll, k) == ContactTracing <==> roll < k.contact
    ensures KindFor(roll, k) == Quarantine <==> k.contact <= roll < k.quarantine
    ensures KindFor(roll, k) == Masked <==> k.quarantine <= roll < k.masked
    ensures KindFor(roll, k) == Introvert <==> k.masked <= roll < k.introvert
    ensures KindFor(roll, k) == Baseline <==> k.introvert <= roll
  {
  }

  /** Non-negative percentages give ordered cut-offs. */
  lemma CutoffsOrdered(maskedPercent: real, quarantinePercent: real, contactTracingPercent: real, introvertPercent: real)
    requires 0.0 <= maskedPercent && 0.0 <= quarantinePercent && 0.0 <= contactTracingPercent && 0.0 <= introvertPercent
    ensures Ordered(MakeCutoffs(maskedPercent, quarantinePercent, contactTracingPercent, introvertPercent))
  {
  }

  /** The infection roll of cell (r, c): the first of its two rolls, in row-major order. */
  function InfectionRoll(n: nat, r: nat, c: nat, pos: nat): nat
  {
    pos + 2 * (r * n + c)
  }

  /** The cell MixedSIRGrid.populate creates from its infection roll and its type roll. */
  function MixedCell(stateRoll: real, typeRoll: real, initInfectedPercent: real, infectionRate: real,
                     recoveryRate: real, k: Cutoffs): CellValue
  {
    Initial(KindFor(typeRoll, k), SeedState(stateRoll, initInfectedPercent), infectionRate, recoveryRate)
  }

  /**
   * The grid MixedSIRGrid.populate creates before wiring: each cell, in
   * row-major order, takes an infection roll and then a type roll.
   */
  function MixedSeeded(n: nat, initInfectedPercent: real, infectionRate: real, recoveryRate: real, k: Cutoffs,
                       random: Rolls, pos: nat): Grid
  {
    seq(n, r requires 0 <= r < n =>
      seq(n, c requires 0 <= c < n =>
        var i := InfectionRoll(n, r, c, pos);
        MixedCell(random(i), random(i + 1), initInfectedPercent, infectionRate, recoveryRate, k)))
  }

  /**
   * G is the grid MixedSIRGrid.populate creates from the rolls starting at
   * pos: n rows of n fresh cells, cell (r, c) made from its own two rolls.
   */
  predicate MixedFrom(G: Grid, n: nat, initInfectedPercent: real, infectionRate: real, recoveryRate: real, k: Cutoffs,
                      random: Rolls, pos: nat)
  {
    && |G| == n && Square(G)
    && forall r, c :: 0 <= r < n && 0 <= c < n ==>
         G[r][c] == MixedCell(random(InfectionRoll(n, r, c, pos)), random(InfectionRoll(n, r, c, pos) + 1),
                              initInfectedPercent, infectionRate, recoveryRate, k)
  }

  /** The seeded grid is the one populate creates. */
  lemma MixedSeededFrom(n: nat, initInfectedPercent: real, infectionRate: real, recoveryRate: real, k: Cutoffs,
                        random: Rolls, pos: nat)
    ensures MixedFrom(MixedSeeded(n, initInfectedPercent, infectionRate, recoveryRate, k, random, pos),
                      n, initInfectedPercent, infectionRate, recoveryRate, k, random, pos)
  {
  }

  /**
   * The rolls of distinct cells never overlap: the two rolls of a cell
   * come after both rolls of every cell before it, and all 2 * n * n rolls
   * lie in [pos, pos + 2 * n * n).
   */
  lemma {:induction false} RollsInOrder(n: nat, r: nat, c: nat, r': nat, c': nat, pos: nat)
    requires r < n && c < n && r' < n && c' < n
    ensures pos <= InfectionRoll(n, r, c, pos) && InfectionRoll(n, r, c, pos) + 2 <= pos + 2 * (n * n)
    ensures Before(r, c, r', c') ==> InfectionRoll(n, r, c, pos) + 2 <= InfectionRoll(n, r', c', pos)
  {
    assert (r + 1) * n == r * n + n;
    MulMono(r + 1, n, n);
    if r < r' {
      MulMono(r + 1, r', n);
    }
  }

  /** Multiplying by n keeps the order of two naturals. */
  lemma MulMono(a: nat, b: nat, n: nat)
    requires a <= b
    ensures a * n <= b * n
  {
    assert b * n == a * n + (b - a) * n;
  }

  /** A freshly populated mixed grid is square, linked and settled, and no cell starts recovered. */
  lemma MixedSeededValid(G: Grid, n: nat, initInfectedPercent: real, infectionRate: real, recoveryRate: real,
                         k: Cutoffs, random: Rolls, pos: nat)
    requires MixedFrom(G, n, initInfectedPercent, infectionRate, recoveryRate, k, random, pos)
    ensures Square(G) && Linked(G) && AllSettled(G) && Count(G, Recovered) == 0
    ensures forall r, c :: 0 <= r < n && 0 <= c < n ==> G[r][c].neighbors == []
  {
    CountZero(G, Recovered);
  }

  /**
   * One cell of what MixedSIRGrid.populate leaves behind: its behaviour and
   * state come from its own two rolls; an introvert keeps the Moore
   * neighbours its wiring rolls let through, every other cell keeps all of them.
   */
  lemma MixedCellWired(G: Grid, n: nat, initInfectedPercent: real, infectionRate: real, recoveryRate: real,
                       k: Cutoffs, random: Rolls, pos: nat, fate: Rolls, fatePos: nat, r: nat, c: nat)
    requires MixedFrom(G, n, initInfectedPercent, infectionRate, recoveryRate, k, random, pos) && r < n && c < n
    ensures var W := Wire(G, fate, fatePos);
      var i := InfectionRoll(n, r, c, pos);
      && |W| == n && |W[r]| == n
      && W[r][c].kind == KindFor(random(i + 1), k)
      && W[r][c].current == SeedState(random(i), initInfectedPercent)
      && W[r][c].neighbors == if W[r][c].kind == Introvert
                              then Kept(Moore(n, r, c), fate, fatePos + Offset(WireDraws(G), r, c))
                              else Moore(n, r, c)
  {
    WireKeepsAt(G, fate, fatePos, r, c);
    WireFromEmpty(G, fate, fatePos, r, c);
  }

  /**
   * The mixed population after wiring is square, linked and settled, and no
   * cell starts recovered.
   */
  lemma MixedPopulationValid(G: Grid, n: nat, initInfectedPercent: real, infectionRate: real, recoveryRate: real,
                             k: Cutoffs, random: Rolls, pos: nat, fate: Rolls, fatePos: nat)
    requires MixedFrom(G, n, initInfectedPercent, infectionRate, recoveryRate, k, random, pos)
    ensures var W := Wire(G, fate, fatePos);
      |W| == n && Square(W) && Linked(W) && AllSettled(W) && Count(W, Recovered) == 0
  {
    MixedSeededValid(G, n, initInfectedPercent, infectionRate, recoveryRate, k, random, pos);
    WireValid(G, fate, fatePos);
    WireCounts(G, fate, fatePos, Recovered);
  }

  /** With all four percentages 0 and rolls in [0, 1), every type roll falls past the last cut-off. */
  lemma MixedNoneSpecial(G: Grid, n: nat, initInfectedPercent: real, infectionRate: real, recoveryRate: real,
                         random: Rolls, pos: nat)
    requires MixedFrom(G, n, initInfectedPercent, infectionRate, recoveryRate, MakeCutoffs(0.0, 0.0, 0.0, 0.0), random, pos)
    requires UnitRolls(random)
    ensures forall r, c :: 0 <= r < n && 0 <= c < n ==> G[r][c].kind == Baseline && G[r][c].neighbors == []
  {
    forall r, c | 0 <= r < n && 0 <= c < n
      ensures G[r][c].kind == Baseline && G[r][c].neighbors == []
    {
      assert 0.0 <= random(InfectionRoll(n, r, c, pos) + 1);
    }
  }

  /**
   * With all four percentages 0 and rolls in [0, 1), every cell is a plain
   * SIRCell: building the neighbourhoods draws nothing, and the neighbour
   * relation is symmetric.
   */
  lemma MixedAllPlain(G: Grid, n: nat, initInfectedPercent: real, infectionRate: real, recoveryRate: real,
                      random: Rolls, pos: nat, fate: Rolls, fatePos: nat, p: Pos, q: Pos)
    requires MixedFrom(G, n, initInfectedPercent, infectionRate, recoveryRate, MakeCutoffs(0.0, 0.0, 0.0, 0.0), random, pos)
    requires UnitRolls(random) && InGrid(n, p) && InGrid(n, q)
    ensures forall r, c :: 0 <= r < n && 0 <= c < n ==> G[r][c].kind == Baseline
    ensures Total(WireDraws(G)) == 0
    ensures var W := Wire(G, fate, fatePos);
      q in W[p.row][p.col].neighbors <==> p in W[q.row][q.col].neighbors
  {
    MixedNoneSpecial(G, n, initInfectedPercent, infectionRate, recoveryRate, random, pos);
    TotalZero(WireDraws(G), n);
    WireSymmetric(G, fate, fatePos, p, q);
  }

  /**
   * A cut-off that reaches 1 empties every later band: with rolls in
   * [0, 1), no cell gets a behaviour of lower priority than i.
   */
  lemma MixedSaturated(G: Grid, n: nat, initInfectedPercent: real, infectionRate: real, recoveryRate: real,
                       k: Cutoffs, random: Rolls, pos: nat, i: nat)
    requires MixedFrom(G, n, initInfectedPercent, infectionRate, recoveryRate, k, random, pos)
    requires UnitRolls(random) && i < 4 && 1.0 <= CutoffAt(k, i)
    ensures forall r, c :: 0 <= r < n && 0 <= c < n ==> Priority(G[r][c].kind) <= i
  {
    forall r, c | 0 <= r < n && 0 <= c < n
      ensures Priority(G[r][c].kind) <= i
    {
      var t := InfectionRoll(n, r, c, pos) + 1;
      assert random(t) < 1.0;
      KindFirstBand(random(t), k, i);
    }
  }
}
