/**
 * One person of the automaton: SIRCell together with the fields and
 * overrides of MaskedCell, QuarantineCell, ContactTracingCell and
 * IntrovertCell, selected by the cell's `kind`. Every method is proved
 * against the pure rules of module Rules and module Topology.
 *
 * A neighbour is held as its grid position; the cell reads its neighbours
 * through the grid's population array, which the caller passes in.
 */
module Cells {
  import opened States
  import opened Rules
  import opened Topology

  class Cell {
    const kind: Kind
    const infectionRate: real
    const recoveryRate: real
    /** The fixed-capacity neighbourhood array; only the first totalNeighbors slots are in use. */
    const neighborhood: array<Pos>
    var totalNeighbors: nat
    var currentState: SIRState
    var nextState: SIRState
    /** Used by quarantine and contact-tracing cells; false for every other kind. */
    var inQuarantine: bool
    /** Used by contact-tracing cells only. */
    var inQuarantineNext: bool

    /** The neighbourhood array has capacity NeighborhoodSize and its fill count never exceeds it. */
    ghost predicate Valid()
      reads this`totalNeighbors
    {
      neighborhood.Length == NeighborhoodSize && totalNeighbors <= neighborhood.Length
    }

    /** The cell as a value: its fields and the neighbours in use. */
    ghost function Value(): CellValue
      requires Valid()
      reads this, neighborhood
    {
      CellValue(kind, infectionRate, recoveryRate, currentState, nextState,
                inQuarantine, inQuarantineNext, neighborhood[..totalNeighbors])
    }

    /** A new cell: no neighbours, next state equal to the initial state, not quarantined. */
    constructor (kind: Kind, initState: SIRState, infectionRate: real, recoveryRate: real)
      ensures Valid() && Value() == Initial(kind, initState, infectionRate, recoveryRate)
      ensures fresh(neighborhood)
    {
      this.kind := kind;
      this.infectionRate := infectionRate;
      this.recoveryRate := recoveryRate;
      currentState := initState;
      neighborhood := new Pos[NeighborhoodSize](_ => Pos(0, 0));
      totalNeighbors := 0;
      nextState := initState;
      inQuarantine := false;
      inQuarantineNext := false;
    }

    /** getCurrentState: the state the neighbours see; reading it changes nothing. */
    function GetCurrentState(): (s: SIRState)
      requires Valid()
      reads this, neighborhood
      ensures s == Value().current
    {
      currentState
    }

    /** getQuarantine of QuarantineCell (inherited by ContactTracingCell): the current flag; reading it changes nothing. */
    function GetQuarantine(): (q: bool)
      requires Valid()
      reads this, neighborhood
      ensures q == Value().inQuarantine
    {
      inQuarantine
    }

    /** getInfectionRate, with the masked and quarantine overrides. */
    function GetInfectionRate(): (rate: real)
      reads this`inQuarantine
      ensures kind == Masked ==> rate == infectionRate * SpreadCoeff
      ensures (kind == Quarantine || kind == ContactTracing) ==> rate == if inQuarantine then 0.0 else infectionRate
      ensures kind == Baseline || kind == Introvert ==> rate == infectionRate
    {
      InfectionRate(kind, infectionRate, inQuarantine)
    }

    /** SIRCell.addNeighbor: store the neighbour if the array has room; a full array is left alone. */
    method AddToNeighborhood(p: Pos)
      requires Valid()
      modifies this`totalNeighbors, neighborhood
      ensures Valid()
      ensures Value() == old(Value()).(neighbors := Adjoin(old(Value()).neighbors, p))
    {
      if totalNeighbors < NeighborhoodSize {
        neighborhood[totalNeighbors] := p;
        totalNeighbors := totalNeighbors + 1;
        assert neighborhood[..totalNeighbors] == old(neighborhood[..totalNeighbors]) + [p];
      }
    }

    /** addNeighbor as dispatched on the cell's kind: an introvert first draws one roll from `fate`. */
    method AddNeighbor(p: Pos, fate: Rolls, pos: nat) returns (cursor: nat)
      requires Valid()
      modifies this`totalNeighbors, neighborhood
      ensures Valid()
      ensures var l := Offer(kind, old(Value()).neighbors, p, fate, pos);
        Value() == old(Value()).(neighbors := l.neighbors) && cursor == l.cursor
    {
      if kind == Introvert {
        if fate(pos) > AvoidanceRate {
          AddToNeighborhood(p);
        }
        cursor := pos + 1;
      } else {
        AddToNeighborhood(p);
        cursor := pos;
      }
    }

    /**
     * The neighbours in use lie on the population array, each is a cell, and
     * `seen` records what each of them currently shows: its state and its
     * advertised infection rate.
     */
    ghost predicate Sees(pop: array2<Cell?>, seen: seq<Seen>)
      requires Valid()
      reads this`totalNeighbors, neighborhood, pop
      reads (set t | 0 <= t < totalNeighbors :: Occupant(pop, neighborhood[t]))`currentState
      reads (set t | 0 <= t < totalNeighbors :: Occupant(pop, neighborhood[t]))`inQuarantine
    {
      && |seen| == totalNeighbors
      && forall t :: 0 <= t < |seen| ==>
           var p := neighborhood[t];
           && 0 <= p.row < pop.Length0 && 0 <= p.col < pop.Length1 && pop[p.row, p.col] != null
           && pop[p.row, p.col].currentState == seen[t].state
           && pop[p.row, p.col].GetInfectionRate() == seen[t].rate
    }

    /**
     * updateNextState, dispatched on the cell's kind: the next fields and the
     * roll cursor become what Transition computes from the cell and its
     * neighbours' current states and rates.
     */
    method UpdateNextState(pop: array2<Cell?>, ghost seen: seq<Seen>, fate: Rolls, pos: nat) returns (cursor: nat)
      requires Valid() && Sees(pop, seen)
      modifies this`nextState, this`inQuarantineNext
      ensures Valid()
      ensures var o := Transition(old(Value()), seen, fate, pos);
        Value() == Apply(old(Value()), o) && cursor == o.cursor
    {
      if kind == ContactTracing {
        cursor := TracingNextState(pop, seen, fate, pos);
      } else {
        cursor := BaseNextState(pop, seen, fate, pos);
      }
    }

    /** updateNextState of SIRCell and MaskedCell (inherited by QuarantineCell and IntrovertCell). */
    method BaseNextState(pop: array2<Cell?>, ghost seen: seq<Seen>, fate: Rolls, pos: nat) returns (cursor: nat)
      requires Valid() && Sees(pop, seen) && kind != ContactTracing
      modifies this`nextState
      ensures var o := BaseTransition(old(Value()), seen, fate, pos);
        nextState == o.next && cursor == o.cursor
    {
      cursor := pos;
      if currentState == Susceptible {
        var i := 0;
        while i < totalNeighbors
          invariant 0 <= i <= totalNeighbors
          invariant Sees(pop, seen)
          invariant var s := Exposure(kind, seen[..i], fate, pos);
            cursor == s.cursor && nextState == (if s.hit then Infectious else old(nextState))
        {
          var p := neighborhood[i];
          var neighbor := pop[p.row, p.col];
          if neighbor.currentState == Infectious {
            var infectRate := Threshold(kind, neighbor.GetInfectionRate());
            if fate(cursor) < infectRate {
              nextState := Infectious;
            }
            cursor := cursor + 1;
          }
          assert seen[..i + 1][..i] == seen[..i];
          i := i + 1;
        }
        assert seen[..i] == seen;
      } else if currentState == Infectious {
        if fate(cursor) < recoveryRate {
          nextState := Recovered;
        }
        cursor := cursor + 1;
      }
    }

    /** updateNextState of ContactTracingCell: the infection rules plus the two-flag quarantine machine. */
    method TracingNextState(pop: array2<Cell?>, ghost seen: seq<Seen>, fate: Rolls, pos: nat) returns (cursor: nat)
      requires Valid() && Sees(pop, seen) && kind == ContactTracing
      modifies this`nextState, this`inQuarantineNext
      ensures var o := TracingTransition(old(Value()), seen, fate, pos);
        nextState == o.next && inQuarantineNext == o.quarantineNext && cursor == o.cursor
    {
      if inQuarantine {
        cursor := QuarantinedNextState(pop, seen, fate, pos);
      } else {
        cursor := FreeNextState(pop, seen, fate, pos);
      }
    }

    /** The quarantined branch: try to recover, and leave quarantine only if nobody around is infectious. */
    method QuarantinedNextState(pop: array2<Cell?>, ghost seen: seq<Seen>, fate: Rolls, pos: nat) returns (cursor: nat)
      requires Valid() && Sees(pop, seen) && kind == ContactTracing && inQuarantine
      modifies this`nextState, this`inQuarantineNext
      ensures var o := TracingTransition(old(Value()), seen, fate, pos);
        nextState == o.next && inQuarantineNext == o.quarantineNext && cursor == o.cursor
    {
      cursor := pos;
      var quarantineOver := true;
      if currentState == Infectious {
        if fate(cursor) < recoveryRate {
          nextState := Recovered;
          quarantineOver := true;
        } else {
          quarantineOver := false;
        }
        cursor := cursor + 1;
      }
      ghost var selfOver := quarantineOver;
      var i := 0;
      while i < totalNeighbors
        invariant 0 <= i <= totalNeighbors
        invariant quarantineOver == (selfOver && InfectiousCount(seen[..i]) == 0)
      {
        var p := neighborhood[i];
        if pop[p.row, p.col].currentState == Infectious {
          quarantineOver := false;
        }
        assert seen[..i + 1][..i] == seen[..i];
        i := i + 1;
      }
      assert seen[..i] == seen;
      if quarantineOver {
        inQuarantineNext := false;
      }
    }

    /** The free branch: every infectious neighbour triggers quarantine and, for a susceptible cell, an infection roll. */
    method FreeNextState(pop: array2<Cell?>, ghost seen: seq<Seen>, fate: Rolls, pos: nat) returns (cursor: nat)
      requires Valid() && Sees(pop, seen) && kind == ContactTracing && !inQuarantine
      modifies this`nextState, this`inQuarantineNext
      ensures var o := TracingTransition(old(Value()), seen, fate, pos);
        nextState == o.next && inQuarantineNext == o.quarantineNext && cursor == o.cursor
    {
      cursor := ScanContacts(pop, seen, fate, pos);
      if currentState == Infectious {
        inQuarantineNext := true;
        if fate(cursor) < recoveryRate {
          nextState := Recovered;
        }
        cursor := cursor + 1;
      }
    }

    /** The neighbour loop of the free branch: quarantine on any infectious contact, and roll for each when susceptible. */
    method ScanContacts(pop: array2<Cell?>, ghost seen: seq<Seen>, fate: Rolls, pos: nat) returns (cursor: nat)
      requires Valid() && Sees(pop, seen) && kind == ContactTracing
      modifies this`nextState, this`inQuarantineNext
      ensures var s := Exposure(kind, seen, fate, pos);
        && cursor == (if currentState == Susceptible then s.cursor else pos)
        && nextState == (if currentState == Susceptible && s.hit then Infectious else old(nextState))
        && inQuarantineNext == (old(inQuarantineNext) || InfectiousCount(seen) > 0)
    {
      cursor := pos;
      var i := 0;
      while i < totalNeighbors
        invariant 0 <= i <= totalNeighbors
        invariant Sees(pop, seen)
        invariant var s := Exposure(kind, seen[..i], fate, pos);
          && cursor == (if currentState == Susceptible then s.cursor else pos)
          && nextState == (if currentState == Susceptible && s.hit then Infectious else old(nextState))
          && inQuarantineNext == (old(inQuarantineNext) || InfectiousCount(seen[..i]) > 0)
      {
        var p := neighborhood[i];
        var neighbor := pop[p.row, p.col];
        assert seen[..i + 1][..i] == seen[..i];
        assert neighbor.currentState == seen[i].state && neighbor.GetInfectionRate() == seen[i].rate;
        if neighbor.currentState == Infectious {
          if currentState == Susceptible {
            if fate(cursor) < neighbor.GetInfectionRate() {
              nextState := Infectious;
            }
            cursor := cursor + 1;
          }
          inQuarantineNext := true;
        }
        i := i + 1;
      }
      assert seen[..i] == seen;
    }

    /** updateCurrentState with the quarantine and contact-tracing overrides. */
    method UpdateCurrentState()
      requires Valid()
      modifies this`currentState, this`inQuarantine
      ensures Valid()
      ensures Value() == Commit(old(Value()))
    {
      currentState := nextState;
      if kind == Quarantine {
        if currentState == Infectious {
          inQuarantine := true;
        } else {
          inQuarantine := false;
        }
      } else if kind == ContactTracing {
        inQuarantine := inQuarantineNext;
      }
    }
  }

  /** The cell at position p of the population array, or null off the array. */
  function Occupant(pop: array2<Cell?>, p: Pos): Cell?
    reads pop
  {
    if 0 <= p.row < pop.Length0 && 0 <= p.col < pop.Length1 then pop[p.row, p.col] else null
  }
}
