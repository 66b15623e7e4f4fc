/**
 * The per-cell transition rules of SIRCell and its four subclasses, as pure
 * functions over the value of one cell and what it sees of its neighbours.
 * The imperative cell methods in module Cells are proved against these
 * functions; the lemmas here state what the rules promise.
 */
module Rules {
  import opened States

  /** Everything a cell holds, as a value. */
  datatype CellValue = CellValue(
    kind: Kind,
    infectionRate: real,
    recoveryRate: real,
    current: SIRState,
    next: SIRState,
    inQuarantine: bool,
    inQuarantineNext: bool,
    neighbors: seq<Pos>)

  /** What a cell reads from one neighbour: getCurrentState() and getInfectionRate(). */
  datatype Seen = Seen(state: SIRState, rate: real)

  /** The result of updateNextState: the two "next" fields and the advanced roll cursor. */
  datatype Outcome = Outcome(next: SIRState, quarantineNext: bool, cursor: nat)

  /** The result of the neighbour scan of a susceptible cell. */
  datatype Scan = Scan(hit: bool, cursor: nat)

  /** A freshly constructed cell: no neighbours, next state equal to the initial state, not quarantined. */
  function Initial(kind: Kind, initState: SIRState, infectionRate: real, recoveryRate: real): CellValue
  {
    CellValue(kind, infectionRate, recoveryRate, initState, initState, false, false, [])
  }

  /**
   * getInfectionRate with its overrides: a masked cell advertises 30% of its
   * rate, a (contact-tracing) quarantine cell advertises 0 while quarantined.
   */
  function InfectionRate(kind: Kind, infectionRate: real, inQuarantine: bool): (rate: real)
    ensures 0.0 <= infectionRate ==> 0.0 <= rate <= infectionRate
    ensures (kind == Quarantine || kind == ContactTracing) && inQuarantine ==> rate == 0.0
    ensures (kind == Quarantine || kind == ContactTracing) && !inQuarantine ==> rate == infectionRate
    ensures kind == Baseline || kind == Introvert ==> rate == infectionRate
    ensures kind == Masked ==> rate == infectionRate * 0.3
  {
    match kind
    case Masked => infectionRate * SpreadCoeff
    case Quarantine => if inQuarantine then 0.0 else infectionRate
    case ContactTracing => if inQuarantine then 0.0 else infectionRate
    case _ => infectionRate
  }

  /** What the neighbours of a cell see of it. */
  function Advertised(a: CellValue): Seen
  {
    Seen(a.current, InfectionRate(a.kind, a.infectionRate, a.inQuarantine))
  }

  /** The bound a roll must fall below for a neighbour advertising `rate` to infect a cell of this kind. */
  function Threshold(kind: Kind, rate: real): real
  {
    if kind == Masked then rate * ContractCoeff else rate
  }

  /** The number of currently infectious neighbours. */
  function InfectiousCount(seen: seq<Seen>): (k: nat)
    ensures k <= |seen|
  {
    if seen == [] then 0
    else InfectiousCount(seen[..|seen| - 1]) + (if seen[|seen| - 1].state == Infectious then 1 else 0)
  }

  /**
   * The neighbour loop of a susceptible cell: one roll per infectious
   * neighbour, in neighbour order, with no early exit.
   */
  function Exposure(kind: Kind, seen: seq<Seen>, rolls: Rolls, pos: nat): Scan
  {
    if seen == [] then Scan(false, pos)
    else
      var s := Exposure(kind, seen[..|seen| - 1], rolls, pos);
      var last := seen[|seen| - 1];
      if last.state == Infectious then Scan(s.hit || rolls(s.cursor) < Threshold(kind, last.rate), s.cursor + 1)
      else s
  }

  /** updateNextState of SIRCell, MaskedCell, QuarantineCell and IntrovertCell (not ContactTracingCell). */
  function BaseTransition(a: CellValue, seen: seq<Seen>, rolls: Rolls, pos: nat): Outcome
  {
    match a.current
    case Susceptible =>
      var s := Exposure(a.kind, seen, rolls, pos);
      Outcome(if s.hit then Infectious else a.next, a.inQuarantineNext, s.cursor)
    case Infectious =>
      Outcome(if rolls(pos) < a.recoveryRate then Recovered else a.next, a.inQuarantineNext, pos + 1)
    case Recovered =>
      Outcome(a.next, a.inQuarantineNext, pos)
  }

  /** updateNextState of ContactTracingCell. */
  function TracingTransition(a: CellValue, seen: seq<Seen>, rolls: Rolls, pos: nat): Outcome
  {
    var exposed := InfectiousCount(seen) > 0;
    if a.inQuarantine then
      if a.current == Infectious then
        var recovers := rolls(pos) < a.recoveryRate;
        Outcome(if recovers then Recovered else a.next,
                if recovers && !exposed then false else a.inQuarantineNext,
                pos + 1)
      else
        Outcome(a.next, if exposed then a.inQuarantineNext else false, pos)
    else if a.current == Susceptible then
      var s := Exposure(a.kind, seen, rolls, pos);
      Outcome(if s.hit then Infectious else a.next, a.inQuarantineNext || exposed, s.cursor)
    else if a.current == Infectious then
      Outcome(if rolls(pos) < a.recoveryRate then Recovered else a.next, true, pos + 1)
    else
      Outcome(a.next, a.inQuarantineNext || exposed, pos)
  }

  /** updateNextState, dispatched on the cell's behaviour. */
  function Transition(a: CellValue, seen: seq<Seen>, rolls: Rolls, pos: nat): Outcome
  {
    if a.kind == ContactTracing then TracingTransition(a, seen, rolls, pos)
    else BaseTransition(a, seen, rolls, pos)
  }

  /** The cell after phase 1 has written its next fields. */
  function Apply(a: CellValue, o: Outcome): CellValue
  {
    a.(next := o.next, inQuarantineNext := o.quarantineNext)
  }

  /**
   * updateCurrentState with its overrides: a quarantine cell is quarantined
   * exactly while infectious, a contact-tracing cell takes its computed flag.
   */
  function Commit(a: CellValue): CellValue
  {
    match a.kind
    case Quarantine => a.(current := a.next, inQuarantine := a.next == Infectious)
    case ContactTracing => a.(current := a.next, inQuarantine := a.inQuarantineNext)
    case _ => a.(current := a.next)
  }

  /** One whole tick of one cell: compute, then commit. */
  function Step(a: CellValue, seen: seq<Seen>, rolls: Rolls, pos: nat): CellValue
  {
    Commit(Apply(a, Transition(a, seen, rolls, pos)))
  }

  /**
   * How many times updateNextState calls nextDouble(): once per infectious
   * neighbour when susceptible (none for a quarantined contact-tracing cell),
   * once when infectious, never when recovered.
   */
  function Draws(a: CellValue, seen: seq<Seen>): nat
  {
    match a.current
    case Susceptible => if a.kind == ContactTracing && a.inQuarantine then 0 else InfectiousCount(seen)
    case Infectious => 1
    case Recovered => 0
  }

  /**
   * The state every cell is in between ticks: its next state equals its
   * current state, and a contact-tracing cell's two flags agree.
   */
  predicate Settled(a: CellValue)
  {
    a.next == a.current && (a.kind == ContactTracing ==> a.inQuarantineNext == a.inQuarantine)
  }

  /** Neighbour i infects the cell: it is infectious and its roll falls below the threshold. */
  predicate Infects(kind: Kind, seen: seq<Seen>, rolls: Rolls, pos: nat, i: nat)
    requires i < |seen|
  {
    seen[i].state == Infectious && rolls(pos + InfectiousCount(seen[..i])) < Threshold(kind, seen[i].rate)
  }

  // ---------------------------------------------------------------------------
  // Lemmas

  /** Some neighbour is infectious exactly when the infectious count is positive. */
  lemma {:induction false} InfectiousCountPositive(seen: seq<Seen>)
    ensures InfectiousCount(seen) > 0 <==> exists i :: 0 <= i < |seen| && seen[i].state == Infectious
  {
    if seen != [] {
      var init := seen[..|seen| - 1];
      InfectiousCountPositive(init);
      if InfectiousCount(init) > 0 {
        var i :| 0 <= i < |init| && init[i].state == Infectious;
        assert seen[i] == init[i];
      }
      if exists i :: 0 <= i < |seen| && seen[i].state == Infectious {
        var i :| 0 <= i < |seen| && seen[i].state == Infectious;
        if i < |init| {
          assert init[i] == seen[i];
        }
      }
    }
  }

  /** The neighbour scan draws exactly one roll per infectious neighbour. */
  lemma {:induction false} ExposureDraws(kind: Kind, seen: seq<Seen>, rolls: Rolls, pos: nat)
    ensures Exposure(kind, seen, rolls, pos).cursor == pos + InfectiousCount(seen)
  {
    if seen != [] {
      ExposureDraws(kind, seen[..|seen| - 1], rolls, pos);
    }
  }

  /**
   * The scan hits exactly when some infectious neighbour's roll (the one
   * drawn for it, in neighbour order) falls below that neighbour's threshold.
   */
  lemma {:induction false} ExposureHit(kind: Kind, seen: seq<Seen>, rolls: Rolls, pos: nat)
    ensures Exposure(kind, seen, rolls, pos).hit <==> exists i :: 0 <= i < |seen| && Infects(kind, seen, rolls, pos, i)
  {
    if seen != [] {
      var n := |seen| - 1;
      var init := seen[..n];
      ExposureHit(kind, init, rolls, pos);
      ExposureDraws(kind, init, rolls, pos);
      forall i | 0 <= i < n
        ensures Infects(kind, seen, rolls, pos, i) == Infects(kind, init, rolls, pos, i)
      {
        assert seen[..i] == init[..i];
      }
      assert seen[..n] == init;
      if Exposure(kind, seen, rolls, pos).hit {
        if !Exposure(kind, init, rolls, pos).hit {
          assert Infects(kind, seen, rolls, pos, n);
        }
      }
    }
  }

  /** updateNextState draws exactly Draws(a, seen) rolls. */
  lemma TransitionDraws(a: CellValue, seen: seq<Seen>, rolls: Rolls, pos: nat)
    ensures Transition(a, seen, rolls, pos).cursor == pos + Draws(a, seen)
  {
    ExposureDraws(a.kind, seen, rolls, pos);
  }

  /**
   * A susceptible cell (other than a quarantined contact-tracing cell) becomes
   * infectious exactly when some infectious neighbour's roll falls below its
   * threshold; otherwise its next state is left as it was.
   */
  lemma SusceptibleRule(a: CellValue, seen: seq<Seen>, rolls: Rolls, pos: nat)
    requires a.current == Susceptible && !(a.kind == ContactTracing && a.inQuarantine)
    ensures Transition(a, seen, rolls, pos).next ==
              if exists i :: 0 <= i < |seen| && Infects(a.kind, seen, rolls, pos, i) then Infectious else a.next
  {
    ExposureHit(a.kind, seen, rolls, pos);
  }

  /** An infectious cell draws exactly one roll and recovers exactly when it falls below its recovery rate. */
  lemma InfectiousRule(a: CellValue, seen: seq<Seen>, rolls: Rolls, pos: nat)
    requires a.current == Infectious
    ensures Transition(a, seen, rolls, pos).next == if rolls(pos) < a.recoveryRate then Recovered else a.next
    ensures Transition(a, seen, rolls, pos).cursor == pos + 1
  {
  }

  /** A recovered cell draws nothing and leaves its next state alone. */
  lemma RecoveredRule(a: CellValue, seen: seq<Seen>, rolls: Rolls, pos: nat)
    requires a.current == Recovered
    ensures Transition(a, seen, rolls, pos).next == a.next
    ensures Transition(a, seen, rolls, pos).cursor == pos
  {
  }

  /** A quarantined, susceptible contact-tracing cell cannot be infected and draws nothing. */
  lemma QuarantinedSusceptibleRule(a: CellValue, seen: seq<Seen>, rolls: Rolls, pos: nat)
    requires a.kind == ContactTracing && a.inQuarantine && a.current == Susceptible
    ensures Transition(a, seen, rolls, pos).next == a.next
    ensures Transition(a, seen, rolls, pos).cursor == pos
  {
  }

  /**
   * The contact-tracing quarantine machine, for a settled cell: a free cell
   * is quarantined next exactly when it or some neighbour is infectious; a
   * quarantined cell is released exactly when it is not infectious (or its
   * recovery roll succeeds) and no neighbour is infectious.
   */
  lemma TracingQuarantineRule(a: CellValue, seen: seq<Seen>, rolls: Rolls, pos: nat)
    requires a.kind == ContactTracing && Settled(a)
    ensures !a.inQuarantine ==>
              (Transition(a, seen, rolls, pos).quarantineNext <==>
                 a.current == Infectious || exists i :: 0 <= i < |seen| && seen[i].state == Infectious)
    ensures a.inQuarantine ==>
              (!Transition(a, seen, rolls, pos).quarantineNext <==>
                 (a.current != Infectious || rolls(pos) < a.recoveryRate) &&
                 !exists i :: 0 <= i < |seen| && seen[i].state == Infectious)
  {
    InfectiousCountPositive(seen);
  }

  /** Only contact-tracing cells compute a next quarantine flag. */
  lemma OtherKindsKeepFlag(a: CellValue, seen: seq<Seen>, rolls: Rolls, pos: nat)
    requires a.kind != ContactTracing
    ensures Transition(a, seen, rolls, pos).quarantineNext == a.inQuarantineNext
  {
  }

  /**
   * A tick never leads back to Susceptible, Recovered is never left, a tick
   * only moves Susceptible to Infectious or Infectious to Recovered, and a
   * settled cell is settled again after it.
   */
  lemma StepMonotone(a: CellValue, seen: seq<Seen>, rolls: Rolls, pos: nat)
    requires Settled(a)
    ensures var b := Step(a, seen, rolls, pos);
      && Settled(b)
      && (b.current == Susceptible ==> a.current == Susceptible)
      && (a.current == Recovered ==> b.current == Recovered)
      && (b.current == a.current || (a.current == Susceptible && b.current == Infectious)
                                 || (a.current == Infectious && b.current == Recovered))
  {
  }

  /** updateCurrentState leaves every cell settled: next equals current and the contact-tracing flags agree. */
  lemma CommitSettles(a: CellValue)
    ensures Settled(Commit(a))
    ensures Commit(a).current == a.next
  {
  }

  /**
   * A new cell is never quarantined, so a quarantine or contact-tracing cell
   * created infectious spreads at its full rate during its first tick.
   */
  lemma FreshCellSpreads(kind: Kind, initState: SIRState, infectionRate: real, recoveryRate: real)
    requires kind == Quarantine || kind == ContactTracing
    ensures !Initial(kind, initState, infectionRate, recoveryRate).inQuarantine
    ensures Advertised(Initial(kind, initState, infectionRate, recoveryRate)) == Seen(initState, infectionRate)
  {
  }

  /** After a commit a quarantine cell is quarantined exactly when it is infectious, so it then advertises rate 0. */
  lemma QuarantineFollowsState(a: CellValue)
    requires a.kind == Quarantine
    ensures Commit(a).inQuarantine <==> Commit(a).current == Infectious
    ensures Commit(a).current == Infectious ==> Advertised(Commit(a)).rate == 0.0
    ensures Commit(a).current != Infectious ==> Advertised(Commit(a)).rate == a.infectionRate
  {
  }

  /**
   * A susceptible cell whose infectious neighbours all advertise a rate of
   * at most 0 stays susceptible, whatever the draws in [0, 1).
   */
  lemma NoRateNoInfection(a: CellValue, seen: seq<Seen>, rolls: Rolls, pos: nat)
    requires UnitRolls(rolls) && Settled(a) && a.current == Susceptible
    requires forall i :: 0 <= i < |seen| && seen[i].state == Infectious ==> seen[i].rate <= 0.0
    ensures Step(a, seen, rolls, pos).current == Susceptible
  {
    if !(a.kind == ContactTracing && a.inQuarantine) {
      SusceptibleRule(a, seen, rolls, pos);
      forall i | 0 <= i < |seen|
        ensures !Infects(a.kind, seen, rolls, pos, i)
      {
        var k := pos + InfectiousCount(seen[..i]);
        assert 0.0 <= rolls(k);
      }
    }
  }
}
