/** The counting pass of `ClearFullRows` (board.go): for every cleared
    block, each occupied cell above it in its column gets one more row to
    fall and is appended to the queue `up`. This module describes that
    queue and proves the two facts the last pass needs from it: how often
    each block is queued, and in which order. */
module Drops {
  import opened Geometry
  import opened Marks
  import opened Collapse

  /** The occupied cells of column `x`, from row `hi` up to row `lo`, in the
      order the scan visits them (row numbers decreasing). */
  function Column(G: Grid, x: int, hi: int, lo: int): seq<Cell>
    decreases hi - lo
  {
    if hi < lo then [] else Column(G, x, hi, lo + 1) + (if Cell(x, lo) in G then [Cell(x, lo)] else [])
  }

  /** The cells queued for one cleared row: above each of its blocks, the
      occupied cells up to row 0. */
  function RowUps(G: Grid, row: seq<Mark>): seq<Cell>
  {
    if row == [] then []
    else
      var mk := row[|row| - 1];
      RowUps(G, row[..|row| - 1]) + Column(G, mk.rc.col, mk.rc.row - 1, 0)
  }

  /** The whole queue `up`, row after row. */
  function UpList(G: Grid, marks: seq<seq<Mark>>): seq<Cell>
  {
    if marks == [] then [] else UpList(G, marks[..|marks| - 1]) + RowUps(G, marks[|marks| - 1])
  }

  /** The blocks of `row` in `c`'s column and strictly below it. */
  function UnderRow(row: seq<Mark>, c: Cell): nat
  {
    if row == [] then 0
    else
      var mk := row[|row| - 1];
      UnderRow(row[..|row| - 1], c) + (if mk.rc.col == c.col && mk.rc.row > c.row then 1 else 0)
  }

  /** The cleared blocks in `c`'s column and strictly below it. */
  function Under(marks: seq<seq<Mark>>, c: Cell): nat
  {
    if marks == [] then 0 else Under(marks[..|marks| - 1], c) + UnderRow(marks[|marks| - 1], c)
  }

  /** `G` with each block's pending fall raised by its count in `up`. */
  function Downs(G: Grid, up: seq<Cell>): Grid
  {
    map c | c in G :: G[c].(down := G[c].down + multiset(up)[c])
  }

  lemma {:induction false} ColumnCount(G: Grid, x: int, hi: int, lo: int, c: Cell)
    ensures multiset(Column(G, x, hi, lo))[c]
         == if c in G && c.col == x && lo <= c.row <= hi then 1 else 0
    decreases hi - lo
  {
    if hi >= lo {
      ColumnCount(G, x, hi, lo + 1, c);
    }
  }

  lemma {:induction false} RowUpsCount(G: Grid, row: seq<Mark>, c: Cell)
    ensures multiset(RowUps(G, row))[c] == if c in G && c.row >= 0 then UnderRow(row, c) else 0
  {
    if row != [] {
      var mk := row[|row| - 1];
      RowUpsCount(G, row[..|row| - 1], c);
      ColumnCount(G, mk.rc.col, mk.rc.row - 1, 0, c);
    }
  }

  /** A block is queued once per cleared block beneath it in its column,
      and only blocks on rows 0 and below are. */
  lemma {:induction false} UpListCount(G: Grid, marks: seq<seq<Mark>>, c: Cell)
    ensures multiset(UpList(G, marks))[c] == if c in G && c.row >= 0 then Under(marks, c) else 0
  {
    if marks != [] {
      UpListCount(G, marks[..|marks| - 1], c);
      RowUpsCount(G, marks[|marks| - 1], c);
    }
  }

  /** Only occupied cells are queued. */
  lemma UpListInGrid(G: Grid, marks: seq<seq<Mark>>)
    ensures forall c :: c in UpList(G, marks) ==> c in G
  {
    forall c | c in UpList(G, marks)
      ensures c in G
    {
      UpListCount(G, marks, c);
    }
  }

  lemma BeforeAppend(A: seq<Cell>, B: seq<Cell>, a: Cell, b: Cell)
    ensures Before(A, a, b) ==> Before(A + B, a, b)
    ensures Before(B, a, b) ==> Before(A + B, a, b)
  {
    if Before(A, a, b) {
      var j :| 0 <= j < |A| && A[j] == b && a in A[..j];
      assert (A + B)[j] == b && (A + B)[..j] == A[..j];
    }
    if Before(B, a, b) {
      var j :| 0 <= j < |B| && B[j] == b && a in B[..j];
      var AB := A + B;
      assert AB[|A| + j] == b;
      assert AB[..|A| + j] == A + B[..j];
    }
  }

  /** The scan of a column meets the lower of two blocks first. */
  lemma {:induction false} ColumnOrder(G: Grid, x: int, hi: int, lo: int, a: int, b: int)
    requires lo <= a < b <= hi && Cell(x, a) in G && Cell(x, b) in G
    ensures Before(Column(G, x, hi, lo), Cell(x, b), Cell(x, a))
    decreases hi - lo
  {
    var rest := Column(G, x, hi, lo + 1);
    if a == lo {
      ColumnCount(G, x, hi, lo + 1, Cell(x, b));
      assert Cell(x, b) in rest;
      BeforeSnoc(rest, Cell(x, a), Cell(x, b), Cell(x, a));
    } else {
      ColumnOrder(G, x, hi, lo + 1, a, b);
      BeforeAppend(rest, if Cell(x, lo) in G then [Cell(x, lo)] else [], Cell(x, b), Cell(x, a));
    }
  }

  lemma {:induction false} RowUpsOrder(G: Grid, row: seq<Mark>, k: nat, c: Cell, d: Cell)
    requires k < |row| && row[k].rc.col == c.col && row[k].rc.row > d.row
    requires d.col == c.col && 0 <= c.row < d.row && c in G && d in G
    ensures Before(RowUps(G, row), d, c)
  {
    var mk := row[|row| - 1];
    var col := Column(G, mk.rc.col, mk.rc.row - 1, 0);
    if k == |row| - 1 {
      ColumnOrder(G, c.col, mk.rc.row - 1, 0, c.row, d.row);
      BeforeAppend(RowUps(G, row[..|row| - 1]), col, d, c);
    } else {
      RowUpsOrder(G, row[..|row| - 1], k, c, d);
      BeforeAppend(RowUps(G, row[..|row| - 1]), col, d, c);
    }
  }

  /** Of two blocks in one column above a cleared block, the lower one is
      queued before some occurrence of the higher one. */
  lemma {:induction false} UpListOrder(G: Grid, marks: seq<seq<Mark>>, j: nat, k: nat, c: Cell, d: Cell)
    requires j < |marks| && k < |marks[j]|
    requires marks[j][k].rc.col == c.col && marks[j][k].rc.row > d.row
    requires d.col == c.col && 0 <= c.row < d.row && c in G && d in G
    ensures Before(UpList(G, marks), d, c)
  {
    var pre := marks[..|marks| - 1];
    if j == |marks| - 1 {
      RowUpsOrder(G, marks[j], k, c, d);
      BeforeAppend(UpList(G, pre), RowUps(G, marks[j]), d, c);
    } else {
      assert pre[j] == marks[j];
      UpListOrder(G, pre, j, k, c, d);
      BeforeAppend(UpList(G, pre), RowUps(G, marks[|marks| - 1]), d, c);
    }
  }

  /** Queueing one more occupied cell raises its pending fall by one. */
  lemma DownsSnoc(G: Grid, up: seq<Cell>, c: Cell)
    requires c in G
    ensures Downs(G, up + [c]) == Downs(G, up)[c := Downs(G, up)[c].(down := Downs(G, up)[c].down + 1)]
  {
    assert forall e :: multiset(up + [c])[e] == multiset(up)[e] + (if e == c then 1 else 0);
  }
}
