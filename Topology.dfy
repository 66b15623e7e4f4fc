/**
 * Neighbourhood construction: the Moore neighbourhood a grid position is
 * offered (SIRGrid.makeNeighborhoods), the fixed-capacity neighbourhood array
 * (SIRCell.addNeighbor) and the introvert's random pruning
 * (IntrovertCell.addNeighbor), as pure functions with their properties.
 */
module Topology {
  import opened States

  /** The position lies on an n-by-n grid. */
  predicate InGrid(n: nat, p: Pos)
  {
    0 <= p.row < n && 0 <= p.col < n
  }

  /** Two distinct positions that touch horizontally, vertically or diagonally. */
  predicate Adjacent(p: Pos, q: Pos)
  {
    p != q && -1 <= q.row - p.row <= 1 && -1 <= q.col - p.col <= 1
  }

  /** SIRCell.addNeighbor: store the neighbour if the array has room, otherwise change nothing. */
  function Adjoin(ns: seq<Pos>, p: Pos): seq<Pos>
  {
    if |ns| < NeighborhoodSize then ns + [p] else ns
  }

  /** A neighbour list together with the roll cursor after building it. */
  datatype Links = Links(neighbors: seq<Pos>, cursor: nat)

  /**
   * addNeighbor with IntrovertCell's override: an introvert draws one roll
   * and keeps the offered neighbour only when the roll exceeds the avoidance rate.
   */
  function Offer(kind: Kind, ns: seq<Pos>, p: Pos, rolls: Rolls, pos: nat): Links
  {
    if kind == Introvert then
      Links(if rolls(pos) > AvoidanceRate then Adjoin(ns, p) else ns, pos + 1)
    else
      Links(Adjoin(ns, p), pos)
  }

  /** The neighbours `offered`, offered one after the other to a cell whose list is `ns`. */
  function Admit(kind: Kind, ns: seq<Pos>, offered: seq<Pos>, rolls: Rolls, pos: nat): Links
  {
    if offered == [] then Links(ns, pos)
    else
      var l := Admit(kind, ns, offered[..|offered| - 1], rolls, pos);
      Offer(kind, l.neighbors, offered[|offered| - 1], rolls, l.cursor)
  }

  /** xs is a subsequence of ys: what is left of ys after dropping some elements, in order. */
  predicate Subsequence(xs: seq<Pos>, ys: seq<Pos>)
  {
    if ys == [] then xs == []
    else
      Subsequence(xs, ys[..|ys| - 1]) ||
      (xs != [] && xs[|xs| - 1] == ys[|ys| - 1] && Subsequence(xs[..|xs| - 1], ys[..|ys| - 1]))
  }

  /** The offset (dr, dc) from (r, c), when it is not (0, 0) and stays on the grid. */
  function Slot(n: nat, r: int, c: int, dr: int, dc: int): seq<Pos>
  {
    if (dr != 0 || dc != 0) && InGrid(n, Pos(r + dr, c + dc)) then [Pos(r + dr, c + dc)] else []
  }

  /** What the inner loop offers for row offset dr, for dc from -1 up to (not including) k. */
  function RowSlots(n: nat, r: int, c: int, dr: int, k: int): seq<Pos>
    requires -1 <= k <= 2
    decreases k + 1
  {
    if k == -1 then [] else RowSlots(n, r, c, dr, k - 1) + Slot(n, r, c, dr, k - 1)
  }

  /** What the two offset loops offer for dr from -1 up to (not including) k. */
  function Offered(n: nat, r: int, c: int, k: int): seq<Pos>
    requires -1 <= k <= 2
    decreases k + 1
  {
    if k == -1 then [] else Offered(n, r, c, k - 1) + RowSlots(n, r, c, k - 1, 2)
  }

  /** The positions makeNeighborhoods offers to the cell at (r, c), in dr-then-dc order. */
  function Moore(n: nat, r: int, c: int): seq<Pos>
  {
    Offered(n, r, c, 2)
  }

  /** Number of rows (or columns) within one step of x on a side-n grid. */
  function Span(n: nat, x: int): nat
  {
    (if x > 0 then 1 else 0) + 1 + (if x < n - 1 then 1 else 0)
  }

  /** How many positions the Moore neighbourhood of an on-grid (r, c) holds (MooreSize). */
  function MooreCount(n: nat, r: int, c: int): nat
  {
    Span(n, r) * Span(n, c) - 1
  }

  // ---------------------------------------------------------------------------
  // Lemmas

  /** One pass of the inner loop: the offsets dc = -1, 0, 1 of row offset dr. */
  lemma RowThree(n: nat, r: int, c: int, dr: int)
    ensures RowSlots(n, r, c, dr, 2) == Slot(n, r, c, dr, -1) + Slot(n, r, c, dr, 0) + Slot(n, r, c, dr, 1)
  {
    assert RowSlots(n, r, c, dr, 0) == Slot(n, r, c, dr, -1);
  }

  /** The outer loop: the passes for dr = -1, 0, 1 one after the other. */
  lemma MooreRows(n: nat, r: int, c: int)
    ensures Moore(n, r, c) == RowSlots(n, r, c, -1, 2) + RowSlots(n, r, c, 0, 2) + RowSlots(n, r, c, 1, 2)
  {
    assert Offered(n, r, c, 0) == RowSlots(n, r, c, -1, 2);
  }

  /** The Moore neighbourhood is the nine offsets in loop order, each kept when legal. */
  lemma MooreSlots(n: nat, r: int, c: int)
    ensures Moore(n, r, c) ==
      Slot(n, r, c, -1, -1) + Slot(n, r, c, -1, 0) + Slot(n, r, c, -1, 1) +
      Slot(n, r, c, 0, -1) + Slot(n, r, c, 0, 0) + Slot(n, r, c, 0, 1) +
      Slot(n, r, c, 1, -1) + Slot(n, r, c, 1, 0) + Slot(n, r, c, 1, 1)
  {
    MooreRows(n, r, c);
    RowThree(n, r, c, -1);
    RowThree(n, r, c, 0);
    RowThree(n, r, c, 1);
    var x, y, z := RowSlots(n, r, c, -1, 2), RowSlots(n, r, c, 0, 2), RowSlots(n, r, c, 1, 2);
    var a4, a5, a6 := Slot(n, r, c, 0, -1), Slot(n, r, c, 0, 0), Slot(n, r, c, 0, 1);
    var a7, a8, a9 := Slot(n, r, c, 1, -1), Slot(n, r, c, 1, 0), Slot(n, r, c, 1, 1);
    assert x + (a4 + a5 + a6) == x + a4 + a5 + a6;
    assert x + y + (a7 + a8 + a9) == x + y + a7 + a8 + a9;
  }

  /** What one pass of the inner loop offers: row r + dr, columns c - 1 up to c + k - 1. */
  lemma {:induction false} RowSlotsMembers(n: nat, r: int, c: int, dr: int, k: int, q: Pos)
    requires -1 <= k <= 2
    ensures q in RowSlots(n, r, c, dr, k) <==>
              InGrid(n, q) && q.row == r + dr && -1 <= q.col - c < k && (dr != 0 || q.col != c)
    decreases k + 1
  {
    if k != -1 {
      RowSlotsMembers(n, r, c, dr, k - 1, q);
    }
  }

  /** What the offset loops offer up to row offset k: adjacent on-grid positions in the rows before r + k. */
  lemma {:induction false} OfferedMembers(n: nat, r: int, c: int, k: int, q: Pos)
    requires -1 <= k <= 2
    ensures q in Offered(n, r, c, k) <==>
              InGrid(n, q) && Adjacent(Pos(r, c), q) && q.row - r < k
    decreases k + 1
  {
    if k != -1 {
      OfferedMembers(n, r, c, k - 1, q);
      RowSlotsMembers(n, r, c, k - 1, 2, q);
    }
  }

  /** The offered positions are exactly the on-grid positions adjacent to (r, c). */
  lemma MooreMembers(n: nat, r: int, c: int, q: Pos)
    ensures q in Moore(n, r, c) <==> InGrid(n, q) && Adjacent(Pos(r, c), q)
  {
    OfferedMembers(n, r, c, 2, q);
  }

  /** One pass of the inner loop offers the columns within one step of c, minus c itself in the middle row. */
  lemma RowSize(n: nat, r: int, c: int, dr: int)
    requires InGrid(n, Pos(r, c))
    ensures |RowSlots(n, r, c, dr, 2)| ==
              if 0 <= r + dr < n then Span(n, c) - (if dr == 0 then 1 else 0) else 0
  {
    RowThree(n, r, c, dr);
  }

  /** 3 x 3 minus the cell itself, clipped at the edges: 8 inside, 5 on an edge, 3 in a corner. */
  lemma MooreSize(n: nat, r: int, c: int)
    requires InGrid(n, Pos(r, c))
    ensures |Moore(n, r, c)| == Span(n, r) * Span(n, c) - 1 == MooreCount(n, r, c)
    ensures |Moore(n, r, c)| <= NeighborhoodSize
    ensures 0 < r < n - 1 && 0 < c < n - 1 ==> |Moore(n, r, c)| == 8
    ensures 2 <= n && (r == 0 || r == n - 1) && (c == 0 || c == n - 1) ==> |Moore(n, r, c)| == 3
    ensures 3 <= n && (r == 0 || r == n - 1) && 0 < c < n - 1 ==> |Moore(n, r, c)| == 5
    ensures 3 <= n && (c == 0 || c == n - 1) && 0 < r < n - 1 ==> |Moore(n, r, c)| == 5
  {
    MooreRows(n, r, c);
    RowSize(n, r, c, -1);
    RowSize(n, r, c, 0);
    RowSize(n, r, c, 1);
    var a, b := Span(n, r), Span(n, c);
    assert |Moore(n, r, c)| == a * b - 1 by {
      if r > 0 && r < n - 1 {
        assert a == 3;
      } else if r > 0 || r < n - 1 {
        assert a == 2;
      } else {
        assert a == 1;
      }
    }
  }

  /** The neighbour relation of full Moore neighbourhoods is symmetric. */
  lemma MooreSymmetric(n: nat, p: Pos, q: Pos)
    requires InGrid(n, p) && InGrid(n, q)
    ensures q in Moore(n, p.row, p.col) <==> p in Moore(n, q.row, q.col)
  {
    MooreMembers(n, p.row, p.col, q);
    MooreMembers(n, q.row, q.col, p);
  }

  /** No cell is offered itself. */
  lemma MooreIrreflexive(n: nat, r: int, c: int)
    ensures Pos(r, c) !in Moore(n, r, c)
  {
    MooreMembers(n, r, c, Pos(r, c));
  }

  /** Offering neighbours to a non-introvert draws nothing, and every offer is kept while there is room. */
  lemma {:induction false} AdmitPlain(kind: Kind, ns: seq<Pos>, offered: seq<Pos>, rolls: Rolls, pos: nat)
    requires kind != Introvert && |ns| + |offered| <= NeighborhoodSize
    ensures Admit(kind, ns, offered, rolls, pos) == Links(ns + offered, pos)
  {
    if offered != [] {
      var init := offered[..|offered| - 1];
      AdmitPlain(kind, ns, init, rolls, pos);
      assert ns + init + [offered[|offered| - 1]] == ns + offered;
    }
  }

  /** Offering A and then B is offering A + B: the second batch starts from where the first left the list and the cursor. */
  lemma {:induction false} AdmitAppend(kind: Kind, ns: seq<Pos>, A: seq<Pos>, B: seq<Pos>, rolls: Rolls, pos: nat)
    ensures var l := Admit(kind, ns, A, rolls, pos);
      Admit(kind, ns, A + B, rolls, pos) == Admit(kind, l.neighbors, B, rolls, l.cursor)
    decreases |B|
  {
    if B != [] {
      var B' := B[..|B| - 1];
      assert (A + B)[..|A + B| - 1] == A + B';
      assert (A + B)[|A + B| - 1] == B[|B| - 1];
      AdmitAppend(kind, ns, A, B', rolls, pos);
    } else {
      assert A + B == A;
    }
  }

  /** An introvert draws exactly one roll per offered neighbour; other kinds draw none. */
  lemma {:induction false} AdmitDraws(kind: Kind, ns: seq<Pos>, offered: seq<Pos>, rolls: Rolls, pos: nat)
    ensures Admit(kind, ns, offered, rolls, pos).cursor == pos + (if kind == Introvert then |offered| else 0)
  {
    if offered != [] {
      AdmitDraws(kind, ns, offered[..|offered| - 1], rolls, pos);
    }
  }

  /** The offered neighbours whose roll, drawn in offer order from `pos`, exceeds the avoidance rate. */
  function Kept(offered: seq<Pos>, rolls: Rolls, pos: nat): seq<Pos>
  {
    if offered == [] then []
    else
      var k := |offered| - 1;
      Kept(offered[..k], rolls, pos) + (if rolls(pos + k) > AvoidanceRate then [offered[k]] else [])
  }

  /** An introvert with room for every offer appends exactly the kept neighbours. */
  lemma {:induction false} AdmitIntrovert(ns: seq<Pos>, offered: seq<Pos>, rolls: Rolls, pos: nat)
    requires |ns| + |offered| <= NeighborhoodSize
    ensures Admit(Introvert, ns, offered, rolls, pos).neighbors == ns + Kept(offered, rolls, pos)
    ensures |Kept(offered, rolls, pos)| <= |offered|
  {
    if offered != [] {
      var k := |offered| - 1;
      AdmitIntrovert(ns, offered[..k], rolls, pos);
      AdmitDraws(Introvert, ns, offered[..k], rolls, pos);
    }
  }

  /** A neighbour is kept exactly when it was offered with a roll above the avoidance rate. */
  lemma {:induction false} KeptMembers(offered: seq<Pos>, rolls: Rolls, pos: nat, q: Pos)
    ensures q in Kept(offered, rolls, pos) <==>
              exists i :: 0 <= i < |offered| && offered[i] == q && rolls(pos + i) > AvoidanceRate
  {
    if offered != [] {
      var k := |offered| - 1;
      var init := offered[..k];
      var last := if rolls(pos + k) > AvoidanceRate then [offered[k]] else [];
      assert Kept(offered, rolls, pos) == Kept(init, rolls, pos) + last;
      KeptMembers(init, rolls, pos, q);
      if exists i :: 0 <= i < |offered| && offered[i] == q && rolls(pos + i) > AvoidanceRate {
        var i :| 0 <= i < |offered| && offered[i] == q && rolls(pos + i) > AvoidanceRate;
        if i < k {
          assert init[i] == q;
        } else {
          assert q in last;
        }
      }
      if q in Kept(init, rolls, pos) {
        var i :| 0 <= i < k && init[i] == q && rolls(pos + i) > AvoidanceRate;
        assert offered[i] == q;
      } else if q in last {
        assert offered[k] == q && rolls(pos + k) > AvoidanceRate;
      }
    }
  }

  /** The kept neighbours are the offered ones with some dropped, in offer order. */
  lemma {:induction false} KeptSubsequence(offered: seq<Pos>, rolls: Rolls, pos: nat)
    ensures Subsequence(Kept(offered, rolls, pos), offered)
  {
    if offered != [] {
      var k := |offered| - 1;
      var kept0 := Kept(offered[..k], rolls, pos);
      KeptSubsequence(offered[..k], rolls, pos);
      assert offered[..|offered| - 1] == offered[..k];
      if rolls(pos + k) > AvoidanceRate {
        var xs := kept0 + [offered[k]];
        assert xs[..|xs| - 1] == kept0;
        assert xs[|xs| - 1] == offered[|offered| - 1];
      } else {
        assert Kept(offered, rolls, pos) == kept0;
      }
    }
  }

  /** Offering never removes a neighbour already listed, nor exceeds the array's capacity. */
  lemma {:induction false} AdmitKeepsPrefix(kind: Kind, ns: seq<Pos>, offered: seq<Pos>, rolls: Rolls, pos: nat)
    requires |ns| <= NeighborhoodSize
    ensures var l := Admit(kind, ns, offered, rolls, pos);
      |ns| <= |l.neighbors| <= NeighborhoodSize && l.neighbors[..|ns|] == ns
  {
    if offered != [] {
      AdmitKeepsPrefix(kind, ns, offered[..|offered| - 1], rolls, pos);
    }
  }

  /** Every neighbour after the offers was already listed or was offered. */
  lemma {:induction false} AdmitFrom(kind: Kind, ns: seq<Pos>, offered: seq<Pos>, rolls: Rolls, pos: nat, q: Pos)
    ensures q in Admit(kind, ns, offered, rolls, pos).neighbors ==> q in ns || q in offered
  {
    if offered != [] {
      var init := offered[..|offered| - 1];
      AdmitFrom(kind, ns, init, rolls, pos, q);
      if q in init {
        var i :| 0 <= i < |init| && init[i] == q;
        assert offered[i] == q;
      }
    }
  }

  /** A non-introvert starting from an empty list keeps every offer (at most the capacity) and draws nothing. */
  lemma PlainFromEmpty(kind: Kind, offered: seq<Pos>, rolls: Rolls, pos: nat)
    requires kind != Introvert && |offered| <= NeighborhoodSize
    ensures Admit(kind, [], offered, rolls, pos) == Links(offered, pos)
  {
    AdmitPlain(kind, [], offered, rolls, pos);
    assert [] + offered == offered;
  }

  /**
   * An introvert that starts with no neighbours and has room for every offer
   * ends with exactly the kept offers, a subsequence of what was offered.
   */
  lemma IntrovertFromEmpty(kind: Kind, ns: seq<Pos>, offered: seq<Pos>, rolls: Rolls, pos: nat)
    requires kind == Introvert && ns == [] && |offered| <= NeighborhoodSize
    ensures Admit(kind, ns, offered, rolls, pos).neighbors == Kept(offered, rolls, pos)
    ensures Subsequence(Kept(offered, rolls, pos), offered)
  {
    AdmitIntrovert(ns, offered, rolls, pos);
    assert ns + Kept(offered, rolls, pos) == Kept(offered, rolls, pos);
    KeptSubsequence(offered, rolls, pos);
  }
}
