/**
 * Shared vocabulary of the SIR cellular automaton: the three epidemic states,
 * the five cell behaviours, grid positions, the fixed constants of the cell
 * classes, and the stream of random draws that stands in for java.util.Random.
 */
module States {

  /** The state of one person in the SIR model. */
  datatype SIRState = Susceptible | Infectious | Recovered

  /**
   * The behaviour of a cell. Each tag stands for one class of the source:
   * SIRCell, MaskedCell, QuarantineCell, ContactTracingCell, IntrovertCell.
   */
  datatype Kind = Baseline | Masked | Quarantine | ContactTracing | Introvert

  /** A grid position, row first. */
  datatype Pos = Pos(row: int, col: int)

  /** Capacity of a cell's neighbourhood array: the 8 Moore neighbours. */
  const NeighborhoodSize: nat := 8

  /** A masked cell advertises 30% of its infection rate (masks cut spread by 70%). */
  const SpreadCoeff: real := 0.3

  /** A masked cell scales each neighbour's advertised rate by 0.8 (20% protection). */
  const ContractCoeff: real := 0.8

  /** An introvert keeps an offered neighbour only when its draw exceeds this. */
  const AvoidanceRate: real := 0.5

  /**
   * The outputs of a random generator, in draw order: the k-th call to
   * nextDouble() returns rolls(k). The stream never runs out.
   */
  type Rolls = nat -> real

  /** Every draw lies in [0, 1), as nextDouble() promises. */
  ghost predicate UnitRolls(rolls: Rolls)
  {
    forall k: nat :: 0.0 <= rolls(k) < 1.0
  }
}
