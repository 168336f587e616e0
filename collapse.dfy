/** The last pass of `ClearFullRows` (board.go): every block that was
    queued to fall is taken out of the grid and filed again `down` rows
    lower. A block is queued once per cleared cell beneath it, so the queue
    holds duplicates, and a block may land on a cell whose own block has
    not moved yet. This module proves that, when the queue is ordered as
    the counting pass builds it, the pass still ends with every block at
    its own destination: the compaction of the grid.

    The Go pass follows pointers; here a block is named by the cell it
    occupied when the pass began, and the blocks' current state is the map
    `Objs` from those names. */
module Collapse {
  import opened Geometry
  import opened Marks

  /** A block moved down by its pending fall, which is then settled. */
  function Shift(m: Mark): Mark
  {
    m.(pos := m.pos.Add(Vec(0, m.down * Size)), rc := Cell(m.rc.col, m.rc.row + m.down), down := 0)
  }

  /** A settled block is not moved again. */
  lemma ShiftSettles(m: Mark)
    ensures Shift(m).down == 0 && Shift(Shift(m)) == Shift(m)
    ensures m.down == 0 ==> Shift(m) == m
  {
  }

  /** Each block is filed under its own cell. */
  ghost predicate Keyed(G: Grid)
  {
    forall c :: c in G ==> G[c].rc == c
  }

  /** No two blocks of `G` have the same destination. */
  ghost predicate ShiftInjective(G: Grid)
  {
    forall c1, c2 :: c1 in G && c2 in G && Shift(G[c1]).rc == Shift(G[c2]).rc ==> c1 == c2
  }

  /** Destination cell to the block that goes there. */
  function Origins(G: Grid): (o: map<Cell, Cell>)
    requires ShiftInjective(G)
    ensures forall c :: c in G ==> Shift(G[c]).rc in o && o[Shift(G[c]).rc] == c
    ensures forall k :: k in o ==> o[k] in G && Shift(G[o[k]]).rc == k
  {
    map c | c in G :: Shift(G[c]).rc := c
  }

  /** The grid with every block at its destination and settled. */
  function Compact(G: Grid): (r: Grid)
    requires ShiftInjective(G)
    ensures forall c :: c in G ==> Shift(G[c]).rc in r && r[Shift(G[c]).rc] == Shift(G[c])
    ensures forall k :: k in r ==> r[k].rc == k && r[k].down == 0
    ensures forall k :: k in r ==> exists c :: c in G && Shift(G[c]).rc == k
  {
    var o := Origins(G);
    map k | k in o :: Shift(G[o[k]])
  }

  /** Some occurrence of `b` in `P` comes after an occurrence of `a`. */
  predicate Before(P: seq<Cell>, a: Cell, b: Cell)
  {
    exists j :: 0 <= j < |P| && P[j] == b && a in P[..j]
  }

  lemma BeforeSnoc(P: seq<Cell>, x: Cell, a: Cell, b: Cell)
    ensures Before(P + [x], a, b) <==> Before(P, a, b) || (x == b && a in P)
  {
    var Q := P + [x];
    if Before(Q, a, b) {
      var j :| 0 <= j < |Q| && Q[j] == b && a in Q[..j];
      if j < |P| {
        assert Q[..j] == P[..j];
      } else {
        assert Q[..j] == P;
      }
    }
    if Before(P, a, b) {
      var j :| 0 <= j < |P| && P[j] == b && a in P[..j];
      assert Q[j] == b && Q[..j] == P[..j];
    }
    if x == b && a in P {
      assert Q[|P|] == b && Q[..|P|] == P;
    }
  }

  lemma BeforeIn(P: seq<Cell>, a: Cell, b: Cell)
    requires Before(P, a, b)
    ensures a in P && b in P
  {
    var j :| 0 <= j < |P| && P[j] == b && a in P[..j];
    assert P[..j] <= P;
  }

  /** The queue is ordered: a queued block's destination, when itself
      queued, is queued before some later occurrence of the block. */
  ghost predicate Ordered(G: Grid, L: seq<Cell>)
    requires forall c :: c in L ==> c in G
  {
    forall c :: c in L && Shift(G[c]).rc in L ==> Before(L, Shift(G[c]).rc, c)
  }

  /** The blocks after the queue prefix `P` has been processed. */
  function Objs(G: Grid, P: seq<Cell>): Grid
  {
    map c | c in G :: if c in P then Shift(G[c]) else G[c]
  }

  /** Whether cell `k` is occupied after the queue prefix `P`: the block
      bound for `k` has arrived and `k`'s own block did not leave after it;
      or no block bound for `k` has moved yet and `k`'s block has not left. */
  ghost predicate Present(G: Grid, o: map<Cell, Cell>, P: seq<Cell>, k: Cell)
  {
    if k in o && o[k] in P then k !in P || Before(P, k, o[k]) else k in G && k !in P
  }

  /** The grid after the first `i` entries of the queue. */
  ghost function Expected(G: Grid, L: seq<Cell>, i: nat): Grid
    requires ShiftInjective(G) && i <= |L|
  {
    var o := Origins(G);
    var P := L[..i];
    map k | k in G.Keys + o.Keys && Present(G, o, P, k) ::
      if k in o && o[k] in P then Shift(G[o[k]]) else G[k]
  }

  /** Facts every step of the pass relies on. */
  ghost predicate PassReady(G: Grid, L: seq<Cell>)
  {
    && Keyed(G)
    && ShiftInjective(G)
    && (forall c :: c in L ==> c in G)
    && (forall c :: c in G ==> G[c].down == multiset(L)[c])
  }

  /** Before the first step nothing has moved. */
  lemma ExpectedStart(G: Grid, L: seq<Cell>)
    requires ShiftInjective(G)
    ensures Objs(G, L[..0]) == G && Expected(G, L, 0) == G
  {
    assert L[..0] == [];
    var E := Expected(G, L, 0);
    assert forall k :: k in E <==> k in G;
  }

  /** One step of the pass, cell by cell: `c0` is the block taken from the
      queue, `mrc` the cell it is removed from and `f0` its destination. */
  lemma StepAtCell(G: Grid, L: seq<Cell>, i: nat, k: Cell)
    requires PassReady(G, L) && i < |L|
    ensures var o, P, P' := Origins(G), L[..i], L[..i + 1];
            var c0 := L[i];
            var f0 := Shift(G[c0]).rc;
            var mrc := if c0 in P then f0 else c0;
            && (Present(G, o, P', k) <==> k == f0 || (Present(G, o, P, k) && k != mrc))
            && (k in o && k != f0 ==> (o[k] in P' <==> o[k] in P))
            && (k == f0 ==> k in o && o[k] == c0)
  {
    var o := Origins(G);
    var P, P' := L[..i], L[..i + 1];
    assert P' == P + [L[i]];
    var c0 := L[i];
    assert c0 in L;
    assert c0 in G && G[c0].down > 0;
    var f0 := Shift(G[c0]).rc;
    assert f0 != c0 && o[f0] == c0;
    var mrc := if c0 in P then f0 else c0;
    if k == f0 {
      if f0 in P' {
        assert f0 in P;
        BeforeSnoc(P, c0, f0, c0);
      }
    } else if k == mrc {
      assert k == c0 && c0 !in P;
      if k in o && o[k] in P' {
        assert o[k] != c0;
        BeforeSnoc(P, c0, c0, o[k]);
        if Before(P, c0, o[k]) {
          BeforeIn(P, c0, o[k]);
        }
      }
    } else {
      assert k in P' <==> k in P;
      if k in o {
        assert o[k] in P' <==> o[k] in P;
        BeforeSnoc(P, c0, k, o[k]);
      }
    }
  }

  /** One step of the pass matches the closed form. */
  lemma ExpectedStep(G: Grid, L: seq<Cell>, i: nat)
    requires PassReady(G, L) && i < |L|
    ensures L[i] in Objs(G, L[..i])
    ensures var m := Objs(G, L[..i])[L[i]];
            Expected(G, L, i + 1) == (Expected(G, L, i) - {m.rc})[Shift(m).rc := Shift(m)]
  {
    var o := Origins(G);
    var P := L[..i];
    var c0 := L[i];
    assert c0 in L;
    var m := Objs(G, P)[c0];
    ShiftSettles(G[c0]);
    var s := Shift(G[c0]);
    assert Shift(m) == s;
    var f0 := s.rc;
    assert m.rc == if c0 in P then f0 else c0;
    var A := Expected(G, L, i + 1);
    var E := Expected(G, L, i);
    var B := (E - {m.rc})[f0 := s];
    forall k
      ensures k in A <==> k in B
    {
      StepAtCell(G, L, i, k);
    }
    forall k | k in A
      ensures A[k] == B[k]
    {
      StepAtCell(G, L, i, k);
    }
  }

  /** At the end of the queue, cell by cell: a cell is occupied exactly
      when some block is bound for it, and then by that block. */
  lemma CompleteAtCell(G: Grid, L: seq<Cell>, k: Cell)
    requires PassReady(G, L) && Ordered(G, L)
    ensures var o := Origins(G);
            && (Present(G, o, L, k) <==> k in o)
            && (k in o && o[k] !in L ==> k == o[k] && G[k] == Shift(G[k]))
  {
    var o := Origins(G);
    if k in G && k !in L {
      UnqueuedStays(G, L, k);
    }
    if k in o {
      var c := o[k];
      if c !in L {
        assert G[c].down == 0;
        ShiftSettles(G[c]);
      }
    }
  }

  /** A block the queue never names has no fall, so it is bound for its own cell. */
  lemma UnqueuedStays(G: Grid, L: seq<Cell>, k: Cell)
    requires PassReady(G, L) && k in G && k !in L
    ensures k in Origins(G) && Origins(G)[k] == k
  {
    assert G[k].down == 0;
    ShiftSettles(G[k]);
  }

  /** After the whole ordered queue, the grid is the compaction. */
  lemma ExpectedComplete(G: Grid, L: seq<Cell>)
    requires PassReady(G, L) && Ordered(G, L)
    ensures Expected(G, L, |L|) == Compact(G)
  {
    assert L[..|L|] == L;
    var A := Expected(G, L, |L|);
    var C := Compact(G);
    forall k
      ensures k in A <==> k in C
      ensures k in A ==> A[k] == C[k]
    {
      CompleteAtCell(G, L, k);
    }
    assert A == C;
  }

  /** The pass ends with the processed blocks' objects settled. */
  lemma ObjsStep(G: Grid, L: seq<Cell>, i: nat)
    requires PassReady(G, L) && i < |L|
    ensures var m := Objs(G, L[..i])[L[i]];
            Objs(G, L[..i + 1]) == Objs(G, L[..i])[L[i] := Shift(m)]
  {
    assert L[..i + 1] == L[..i] + [L[i]];
    assert L[i] in L;
    ShiftSettles(G[L[i]]);
  }
}
