/** `ClearFullRows` (board.go), phase by phase, against a single
    specification: the rows it reports are the full rows the piece touches,
    and the grid it leaves is `Collapsed` — every block outside those rows
    moved down by the number of them below it in its column. */
module Clearing {
  import opened Geometry
  import opened Marks
  import opened Collapse
  import opened Drops

  /** The box in cells, as `ClearFullRows` computes it: columns [c0, c1)
      and rows [r0, r1). */
  datatype Extent = Extent(c0: int, r0: int, c1: int, r1: int)

  /** `int(x/size)` and friends; the width and height are added to the corner. */
  function CellExtent(box: Rect): (e: Extent)
    ensures box.w >= 0 && box.h >= 0 ==> e.c0 <= e.c1 && e.r0 <= e.r1
  {
    var left := TruncDiv(box.x, Size);
    var top := TruncDiv(box.y, Size);
    Extent(left, top, TruncDiv(box.w, Size) + left, TruncDiv(box.h, Size) + top)
  }

  /** On a box aligned to the grid, the extent's cells tile the box exactly. */
  lemma ExtentTilesBox(box: Rect)
    requires box.x >= 0 && box.y >= 0 && box.w >= 0 && box.h >= 0
    requires box.x % Size == 0 && box.y % Size == 0 && box.w % Size == 0 && box.h % Size == 0
    ensures var e := CellExtent(box);
            && e.c0 * Size == box.MinX() && e.c1 * Size == box.MaxX()
            && e.r0 * Size == box.y && e.r1 * Size == box.MaxY()
  {
    ExtentColumns(box);
    TruncDivMultiple(box.y / Size);
    TruncDivMultiple(box.h / Size);
  }

  /** The column half: a whole-block left edge and width give exactly the
      box's columns. */
  lemma ExtentColumns(box: Rect)
    requires box.x >= 0 && box.w >= 0 && box.x % Size == 0 && box.w % Size == 0
    ensures CellExtent(box).c0 * Size == box.MinX() && CellExtent(box).c1 * Size == box.MaxX()
  {
    TruncDivMultiple(box.x / Size);
    TruncDivMultiple(box.w / Size);
  }

  /** The game's box (20, 20, 100, 200): columns 2..11 and rows 2..21. */
  lemma GameExtent()
    ensures CellExtent(Rect(20, 20, 100, 200)) == Extent(2, 2, 12, 22)
  {
    TruncDivMultiple(2);
    TruncDivMultiple(10);
    TruncDivMultiple(20);
  }

  /** The row a block of the piece lies in: `int(p.Y() / 10)`. */
  function RowOf(pos: Vec, bk: Vec): (r: int)
    ensures pos.y + bk.y * Size >= 0 ==> r * Size <= pos.y + bk.y * Size < r * Size + Size
  {
    TruncDiv(pos.y + bk.y * Size, Size)
  }

  /** Every column of the extent is occupied on row `r`. */
  ghost predicate FullRow(g: Grid, r: int, e: Extent)
  {
    forall ix :: e.c0 <= ix < e.c1 ==> Cell(ix, r) in g
  }

  /** The rows of the blocks that lie inside the extent's rows. */
  function SeenRows(pos: Vec, blks: seq<Vec>, e: Extent): set<int>
  {
    set bk | bk in blks && e.r0 <= RowOf(pos, bk) < e.r1 :: RowOf(pos, bk)
  }

  /** The rows `ClearFullRows` reports: block by block, the block's row
      when it is inside the box, not met before, and full. */
  ghost function FullRowsOf(g: Grid, pos: Vec, blks: seq<Vec>, e: Extent): seq<int>
  {
    if blks == [] then []
    else
      var pre := blks[..|blks| - 1];
      var py := RowOf(pos, blks[|blks| - 1]);
      FullRowsOf(g, pos, pre, e)
        + (if e.r0 <= py < e.r1 && py !in SeenRows(pos, pre, e) && FullRow(g, py, e) then [py] else [])
  }

  ghost predicate Distinct(rows: seq<int>)
  {
    forall i, j :: 0 <= i < j < |rows| ==> rows[i] != rows[j]
  }

  lemma SeenRowsSnoc(pos: Vec, blks: seq<Vec>, e: Extent)
    requires blks != []
    ensures var py := RowOf(pos, blks[|blks| - 1]);
            SeenRows(pos, blks, e)
              == SeenRows(pos, blks[..|blks| - 1], e) + (if e.r0 <= py < e.r1 then {py} else {})
  {
    var pre := blks[..|blks| - 1];
    assert blks == pre + [blks[|blks| - 1]];
  }

  /** The reported rows are distinct, and they are exactly the full rows,
      inside the box, that some block of the piece lies in. */
  lemma {:induction false} FullRowsSpec(g: Grid, pos: Vec, blks: seq<Vec>, e: Extent)
    ensures Distinct(FullRowsOf(g, pos, blks, e))
    ensures forall r :: r in FullRowsOf(g, pos, blks, e) <==>
              (exists bk :: bk in blks && RowOf(pos, bk) == r) && e.r0 <= r < e.r1 && FullRow(g, r, e)
  {
    if blks != [] {
      var pre := blks[..|blks| - 1];
      var bk := blks[|blks| - 1];
      assert blks == pre + [bk];
      FullRowsSpec(g, pos, pre, e);
      SeenRowsSnoc(pos, blks, e);
      var rows := FullRowsOf(g, pos, blks, e);
      forall r | r in FullRowsOf(g, pos, pre, e)
        ensures r in SeenRows(pos, pre, e)
      {
        var b :| b in pre && RowOf(pos, b) == r;
      }
    }
  }

  /** One more block: its row joins the seen rows when inside the box, and
      the reported rows when also new and full. */
  lemma BlockRow(g: Grid, pos: Vec, blks: seq<Vec>, i: int, e: Extent)
    requires 0 <= i < |blks|
    ensures var py := RowOf(pos, blks[i]);
            var inside := e.r0 <= py < e.r1;
            && SeenRows(pos, blks[..i + 1], e) == SeenRows(pos, blks[..i], e) + (if inside then {py} else {})
            && FullRowsOf(g, pos, blks[..i + 1], e)
                 == FullRowsOf(g, pos, blks[..i], e)
                    + (if inside && py !in SeenRows(pos, blks[..i], e) && FullRow(g, py, e) then [py] else [])
  {
    assert blks[..i + 1][..i] == blks[..i];
    SeenRowsSnoc(pos, blks[..i + 1], e);
  }

  lemma MarksSnoc(g: Grid, rows: seq<int>, r: int, e: Extent)
    requires (forall x :: x in rows ==> FullRow(g, x, e)) && FullRow(g, r, e)
    ensures forall x :: x in rows + [r] ==> FullRow(g, x, e)
    ensures MarksOf(g, rows + [r], e) == MarksOf(g, rows, e) + [RowMarks(g, r, e.c0, e.c1)]
  {
    assert (rows + [r])[..|rows|] == rows;
  }

  /** The blocks of full row `r`, column by column from `lo` to `hi`. */
  function RowMarks(g: Grid, r: int, lo: int, hi: int): (row: seq<Mark>)
    requires forall ix :: lo <= ix < hi ==> Cell(ix, r) in g
    ensures |row| == if hi <= lo then 0 else hi - lo
    decreases hi - lo
  {
    if hi <= lo then [] else RowMarks(g, r, lo, hi - 1) + [g[Cell(hi - 1, r)]]
  }

  /** `marks`: the blocks of each reported row. */
  function MarksOf(g: Grid, rows: seq<int>, e: Extent): seq<seq<Mark>>
    requires forall r :: r in rows ==> FullRow(g, r, e)
  {
    if rows == [] then []
    else
      assert rows[|rows| - 1] in rows;
      assert FullRow(g, rows[|rows| - 1], e);
      assert forall r :: r in rows[..|rows| - 1] ==> r in rows;
      MarksOf(g, rows[..|rows| - 1], e) + [RowMarks(g, rows[|rows| - 1], e.c0, e.c1)]
  }

  /** The cells the delete pass empties. */
  function RowRcs(row: seq<Mark>): set<Cell>
  {
    if row == [] then {} else RowRcs(row[..|row| - 1]) + {row[|row| - 1].rc}
  }

  function RcSet(marks: seq<seq<Mark>>): set<Cell>
  {
    if marks == [] then {} else RcSet(marks[..|marks| - 1]) + RowRcs(marks[|marks| - 1])
  }

  /** The number of reported rows strictly below row `y`. */
  function RowsBelow(rows: seq<int>, y: int): nat
  {
    if rows == [] then 0 else RowsBelow(rows[..|rows| - 1], y) + (if rows[|rows| - 1] > y then 1 else 0)
  }

  /** How far the block at `c` falls: the reported rows below it when it is
      in a column of the box and on a row the scan reaches (0 or below). */
  function Drop(rows: seq<int>, e: Extent, c: Cell): nat
  {
    if c.row >= 0 && e.c0 <= c.col < e.c1 then RowsBelow(rows, c.row) else 0
  }

  /** Whether `c` is a cell of a reported row inside the box. */
  predicate Cleared(rows: seq<int>, e: Extent, c: Cell)
  {
    c.row in rows && e.c0 <= c.col < e.c1
  }

  /** The grid after the delete pass. */
  function Survivors(g: Grid, rows: seq<int>, e: Extent): Grid
  {
    map c | c in g && !Cleared(rows, e, c) :: g[c]
  }

  /** The survivors with their pending falls set. */
  function Pending(g: Grid, rows: seq<int>, e: Extent): Grid
  {
    var s := Survivors(g, rows, e);
    map c | c in s :: s[c].(down := Drop(rows, e, c))
  }

  /** The grid `ClearFullRows` leaves. */
  function Collapsed(g: Grid, rows: seq<int>, e: Extent): Grid
    requires Keyed(g) && Distinct(rows)
  {
    PendingInjective(g, rows, e);
    Compact(Pending(g, rows, e))
  }

  // ---- counting facts about the reported rows ----

  function Occ(rows: seq<int>, r: int): nat
  {
    if rows == [] then 0 else Occ(rows[..|rows| - 1], r) + (if rows[|rows| - 1] == r then 1 else 0)
  }

  function RowsBetween(rows: seq<int>, a: int, b: int): nat
  {
    if rows == [] then 0
    else RowsBetween(rows[..|rows| - 1], a, b) + (if a < rows[|rows| - 1] < b then 1 else 0)
  }

  lemma {:induction false} OccNotIn(rows: seq<int>, r: int)
    ensures Occ(rows, r) == 0 <==> r !in rows
  {
    if rows != [] {
      OccNotIn(rows[..|rows| - 1], r);
      assert rows == rows[..|rows| - 1] + [rows[|rows| - 1]];
    }
  }

  lemma {:induction false} OccDistinct(rows: seq<int>, r: int)
    requires Distinct(rows)
    ensures Occ(rows, r) <= 1
  {
    if rows != [] {
      var pre := rows[..|rows| - 1];
      OccDistinct(pre, r);
      if rows[|rows| - 1] == r {
        OccNotIn(pre, r);
      }
    }
  }

  lemma {:induction false} BelowSplit(rows: seq<int>, a: int, b: int)
    requires a < b
    ensures RowsBelow(rows, a) == RowsBetween(rows, a, b) + Occ(rows, b) + RowsBelow(rows, b)
  {
    if rows != [] {
      BelowSplit(rows[..|rows| - 1], a, b);
    }
  }

  lemma {:induction false} BetweenStep(rows: seq<int>, a: int, b: int)
    requires a < b - 1
    ensures RowsBetween(rows, a, b) == RowsBetween(rows, a, b - 1) + Occ(rows, b - 1)
  {
    if rows != [] {
      BetweenStep(rows[..|rows| - 1], a, b);
    }
  }

  lemma {:induction false} BetweenEmpty(rows: seq<int>, a: int, b: int)
    requires b <= a + 1
    ensures RowsBetween(rows, a, b) == 0
  {
    if rows != [] {
      BetweenEmpty(rows[..|rows| - 1], a, b);
    }
  }

  /** Distinct rows strictly between a and b are at most the b - a - 1
      rows there are. */
  lemma {:induction false} BetweenBound(rows: seq<int>, a: int, b: int)
    requires Distinct(rows) && a < b
    ensures RowsBetween(rows, a, b) <= b - a - 1
    decreases b - a
  {
    if b == a + 1 {
      BetweenEmpty(rows, a, b);
    } else {
      BetweenStep(rows, a, b);
      BetweenBound(rows, a, b - 1);
      OccDistinct(rows, b - 1);
    }
  }

  /** A block above another, in the same column, falls at most as many
      more rows as there are reported rows between them. */
  lemma DropGap(rows: seq<int>, a: int, b: int)
    requires Distinct(rows) && a < b && b !in rows
    ensures RowsBelow(rows, a) <= RowsBelow(rows, b) + (b - a - 1)
  {
    BelowSplit(rows, a, b);
    OccNotIn(rows, b);
    BetweenBound(rows, a, b);
  }

  /** Of two survivors in one column, the higher one lands strictly higher. */
  lemma DropKeepsOrder(g: Grid, rows: seq<int>, e: Extent, c1: Cell, c2: Cell)
    requires Distinct(rows)
    requires c1 in Survivors(g, rows, e) && c2 in Survivors(g, rows, e)
    requires c1.col == c2.col && c1.row < c2.row
    ensures c1.row + Drop(rows, e, c1) < c2.row + Drop(rows, e, c2)
  {
    if c1.row >= 0 && e.c0 <= c1.col < e.c1 {
      assert !Cleared(rows, e, c2);
      DropGap(rows, c1.row, c2.row);
    }
  }

  lemma PendingInjective(g: Grid, rows: seq<int>, e: Extent)
    requires Keyed(g) && Distinct(rows)
    ensures Keyed(Pending(g, rows, e)) && ShiftInjective(Pending(g, rows, e))
  {
    var p := Pending(g, rows, e);
    forall c1, c2 | c1 in p && c2 in p && Shift(p[c1]).rc == Shift(p[c2]).rc
      ensures c1 == c2
    {
      if c1.row < c2.row {
        DropKeepsOrder(g, rows, e, c1, c2);
      } else if c2.row < c1.row {
        DropKeepsOrder(g, rows, e, c2, c1);
      }
    }
  }

  // ---- what the collapse guarantees ----

  /** Every survivor of the delete pass is found again, moved down by the
      number of reported rows below it in its column, with its picture and
      nothing pending. */
  lemma CollapsedMoves(g: Grid, rows: seq<int>, e: Extent, c: Cell)
    requires Keyed(g) && Distinct(rows) && c in g && !Cleared(rows, e, c)
    ensures var C, d := Collapsed(g, rows, e), Drop(rows, e, c);
            var k := Cell(c.col, c.row + d);
            k in C && C[k] == g[c].(pos := Vec(g[c].pos.x, g[c].pos.y + d * Size), rc := k, down := 0)
  {
    PendingInjective(g, rows, e);
    var p := Pending(g, rows, e);
    assert c in Survivors(g, rows, e);
    assert c in p && p[c] == g[c].(down := Drop(rows, e, c));
    assert Shift(p[c]).rc == Cell(c.col, c.row + Drop(rows, e, c));
  }

  /** Nothing else is on the grid afterwards, and it is filed again. */
  lemma CollapsedOnlyMoves(g: Grid, rows: seq<int>, e: Extent)
    requires Keyed(g) && Distinct(rows)
    ensures Filed(Collapsed(g, rows, e))
    ensures forall k :: k in Collapsed(g, rows, e) ==>
              exists c :: c in g && !Cleared(rows, e, c) && k == Cell(c.col, c.row + Drop(rows, e, c))
  {
    PendingInjective(g, rows, e);
    var p := Pending(g, rows, e);
    forall k | k in Collapsed(g, rows, e)
      ensures exists c :: c in g && !Cleared(rows, e, c) && k == Cell(c.col, c.row + Drop(rows, e, c))
    {
      var c :| c in p && Shift(p[c]).rc == k;
    }
  }

  /** Blocks keep their top-to-bottom order within each column. */
  lemma CollapsedKeepsOrder(g: Grid, rows: seq<int>, e: Extent, c1: Cell, c2: Cell)
    requires Distinct(rows)
    requires c1 in g && !Cleared(rows, e, c1) && c2 in g && !Cleared(rows, e, c2)
    requires c1.col == c2.col && c1.row < c2.row
    ensures c1.row + Drop(rows, e, c1) < c2.row + Drop(rows, e, c2)
  {
    DropKeepsOrder(g, rows, e, c1, c2);
  }

  /** With no reported row the grid is left as it was. */
  lemma CollapsedNoRows(g: Grid, e: Extent)
    requires Filed(g)
    ensures Collapsed(g, [], e) == g
  {
    var p := Pending(g, [], e);
    forall c | c in p
      ensures Shift(p[c]) == g[c]
    {
      ShiftSettles(g[c]);
    }
    var r := Collapsed(g, [], e);
    forall k
      ensures k in r <==> k in g
      ensures k in r ==> r[k] == g[k]
    {
      if k in g {
        ShiftSettles(g[k]);
      }
    }
  }

  /** A reported row is not left empty in general: with one reported row,
      a block right above it in a box column falls into it. */
  lemma CollapsedRefillsRow(g: Grid, r: int, e: Extent, x: int)
    requires Keyed(g) && r >= 1 && e.c0 <= x < e.c1 && Cell(x, r - 1) in g
    ensures Cell(x, r) in Collapsed(g, [r], e)
  {
    assert RowsBelow([r], r - 1) == 1;
    CollapsedMoves(g, [r], e, Cell(x, r - 1));
  }

  /** Blocks below every reported row, or outside the box's columns, stay put. */
  lemma CollapsedKeepsBelow(g: Grid, rows: seq<int>, e: Extent, c: Cell)
    requires Keyed(g) && Distinct(rows) && c in g && !Cleared(rows, e, c)
    requires (forall r :: r in rows ==> r <= c.row) || c.col < e.c0 || e.c1 <= c.col
    ensures c in Collapsed(g, rows, e) && Collapsed(g, rows, e)[c] == g[c].(down := 0)
  {
    NoDrop(rows, e, c);
    var d := Drop(rows, e, c);
    CollapsedMoves(g, rows, e, c);
    var m := g[c];
    assert Cell(c.col, c.row + d) == c && m.rc == c;
    assert m.(pos := Vec(m.pos.x, m.pos.y + d * Size), rc := c, down := 0) == m.(down := 0);
  }

  lemma NoDrop(rows: seq<int>, e: Extent, c: Cell)
    requires (forall r :: r in rows ==> r <= c.row) || c.col < e.c0 || e.c1 <= c.col
    ensures Drop(rows, e, c) == 0
  {
    if forall r :: r in rows ==> r <= c.row {
      BelowNone(rows, c.row);
    }
  }

  lemma {:induction false} BelowNone(rows: seq<int>, y: int)
    requires forall r :: r in rows ==> r <= y
    ensures RowsBelow(rows, y) == 0
  {
    if rows != [] {
      var pre := rows[..|rows| - 1];
      assert rows == pre + [rows[|rows| - 1]];
      assert rows[|rows| - 1] in rows;
      forall r | r in pre
        ensures r <= y
      {
        assert r in rows;
      }
      BelowNone(pre, y);
    }
  }

  // ---- the passes of ClearFullRows ----

  /** The delete pass empties exactly the cells of the reported rows inside the box. */
  lemma {:induction false} RowRcsSpec(g: Grid, r: int, lo: int, hi: int)
    requires Keyed(g) && forall ix :: lo <= ix < hi ==> Cell(ix, r) in g
    ensures forall c :: c in RowRcs(RowMarks(g, r, lo, hi)) <==> c.row == r && lo <= c.col < hi
    decreases hi - lo
  {
    if hi > lo {
      var row := RowMarks(g, r, lo, hi);
      assert row[..|row| - 1] == RowMarks(g, r, lo, hi - 1);
      RowRcsSpec(g, r, lo, hi - 1);
    }
  }

  lemma {:induction false} RcSetSpec(g: Grid, rows: seq<int>, e: Extent)
    requires Keyed(g) && forall r :: r in rows ==> FullRow(g, r, e)
    ensures forall c :: c in RcSet(MarksOf(g, rows, e)) <==> Cleared(rows, e, c)
  {
    if rows != [] {
      var pre := rows[..|rows| - 1];
      assert rows == pre + [rows[|rows| - 1]];
      var m := MarksOf(g, rows, e);
      assert m[..|m| - 1] == MarksOf(g, pre, e);
      assert rows[|rows| - 1] in rows;
      RcSetSpec(g, pre, e);
      RowRcsSpec(g, rows[|rows| - 1], e.c0, e.c1);
    }
  }

  lemma {:induction false} UnderRowSpec(g: Grid, r: int, lo: int, hi: int, c: Cell)
    requires Keyed(g) && forall ix :: lo <= ix < hi ==> Cell(ix, r) in g
    ensures UnderRow(RowMarks(g, r, lo, hi), c) == if lo <= c.col < hi && r > c.row then 1 else 0
    decreases hi - lo
  {
    if hi > lo {
      var row := RowMarks(g, r, lo, hi);
      assert row[..|row| - 1] == RowMarks(g, r, lo, hi - 1);
      UnderRowSpec(g, r, lo, hi - 1, c);
    }
  }

  lemma {:induction false} UnderSpec(g: Grid, rows: seq<int>, e: Extent, c: Cell)
    requires Keyed(g) && forall r :: r in rows ==> FullRow(g, r, e)
    ensures Under(MarksOf(g, rows, e), c) == if e.c0 <= c.col < e.c1 then RowsBelow(rows, c.row) else 0
  {
    if rows != [] {
      var pre := rows[..|rows| - 1];
      assert rows == pre + [rows[|rows| - 1]];
      var m := MarksOf(g, rows, e);
      assert m[..|m| - 1] == MarksOf(g, pre, e);
      assert rows[|rows| - 1] in rows;
      UnderSpec(g, pre, e, c);
      UnderRowSpec(g, rows[|rows| - 1], e.c0, e.c1, c);
    }
  }

  /** A block with a pending fall has a cleared block below it in its column. */
  lemma {:induction false} UnderWitness(marks: seq<seq<Mark>>, c: Cell) returns (j: nat, k: nat)
    requires Under(marks, c) > 0
    ensures j < |marks| && k < |marks[j]|
    ensures marks[j][k].rc.col == c.col && marks[j][k].rc.row > c.row
  {
    var pre := marks[..|marks| - 1];
    if Under(pre, c) > 0 {
      j, k := UnderWitness(pre, c);
      assert marks[j] == pre[j];
    } else {
      j := |marks| - 1;
      k := UnderRowWitness(marks[j], c);
    }
  }

  lemma {:induction false} UnderRowWitness(row: seq<Mark>, c: Cell) returns (k: nat)
    requires UnderRow(row, c) > 0
    ensures k < |row| && row[k].rc.col == c.col && row[k].rc.row > c.row
  {
    var pre := row[..|row| - 1];
    if UnderRow(pre, c) > 0 {
      k := UnderRowWitness(pre, c);
      assert row[k] == pre[k];
    } else {
      k := |row| - 1;
    }
  }

  /** The delete pass leaves the survivors. */
  lemma DeletedAreSurvivors(g: Grid, rows: seq<int>, e: Extent)
    requires Keyed(g) && forall r :: r in rows ==> FullRow(g, r, e)
    ensures g - RcSet(MarksOf(g, rows, e)) == Survivors(g, rows, e)
  {
    RcSetSpec(g, rows, e);
  }

  /** The counting pass sets each survivor's pending fall to its drop. */
  lemma CountedDowns(g: Grid, rows: seq<int>, e: Extent)
    requires Filed(g) && forall r :: r in rows ==> FullRow(g, r, e)
    ensures var s := Survivors(g, rows, e);
            Downs(s, UpList(s, MarksOf(g, rows, e))) == Pending(g, rows, e)
  {
    var marks := MarksOf(g, rows, e);
    var s := Survivors(g, rows, e);
    var up := UpList(s, marks);
    var A, B := Downs(s, up), Pending(g, rows, e);
    assert A.Keys == s.Keys && B.Keys == s.Keys;
    forall c | c in s
      ensures A[c] == B[c]
    {
      QueuedDrop(g, rows, e, c);
      assert s[c] == g[c] && g[c].down == 0;
    }
    assert A == B;
  }

  /** How often the counting pass queues a cell. */
  lemma QueuedDrop(g: Grid, rows: seq<int>, e: Extent, c: Cell)
    requires Keyed(g) && forall r :: r in rows ==> FullRow(g, r, e)
    ensures var s := Survivors(g, rows, e);
            multiset(UpList(s, MarksOf(g, rows, e)))[c] == if c in s then Drop(rows, e, c) else 0
  {
    UpListCount(Survivors(g, rows, e), MarksOf(g, rows, e), c);
    UnderSpec(g, rows, e, c);
  }

  /** The queue and the pending grid are ready for the last pass. */
  lemma CountedReady(g: Grid, rows: seq<int>, e: Extent)
    requires Filed(g) && Distinct(rows) && forall r :: r in rows ==> FullRow(g, r, e)
    ensures PassReady(Pending(g, rows, e), UpList(Survivors(g, rows, e), MarksOf(g, rows, e)))
  {
    var s := Survivors(g, rows, e);
    var up := UpList(s, MarksOf(g, rows, e));
    var p := Pending(g, rows, e);
    forall c | c in p
      ensures p[c].down == multiset(up)[c]
    {
      QueuedDrop(g, rows, e, c);
    }
    PendingInjective(g, rows, e);
    UpListInGrid(s, MarksOf(g, rows, e));
  }

  /** A queued block whose destination is queued too: the destination is
      queued before some later occurrence of the block. */
  lemma CountedOrderAt(g: Grid, rows: seq<int>, e: Extent, c: Cell)
    requires Filed(g) && Distinct(rows) && forall r :: r in rows ==> FullRow(g, r, e)
    requires var up := UpList(Survivors(g, rows, e), MarksOf(g, rows, e));
             c in up && c in Pending(g, rows, e) && Shift(Pending(g, rows, e)[c]).rc in up
    ensures var up := UpList(Survivors(g, rows, e), MarksOf(g, rows, e));
            Before(up, Shift(Pending(g, rows, e)[c]).rc, c)
  {
    var marks := MarksOf(g, rows, e);
    var s := Survivors(g, rows, e);
    var up := UpList(s, marks);
    var p := Pending(g, rows, e);
    var d := Shift(p[c]).rc;
    UpListInGrid(s, marks);
    assert d in s;
    QueuedDrop(g, rows, e, d);
    QueuedDrop(g, rows, e, c);
    assert Drop(rows, e, d) > 0 && Drop(rows, e, c) > 0;
    UnderSpec(g, rows, e, d);
    var j, k := UnderWitness(marks, d);
    UpListOrder(s, marks, j, k, c, d);
  }

  /** The queue is ordered as the last pass needs. */
  lemma CountedOrder(g: Grid, rows: seq<int>, e: Extent)
    requires Filed(g) && Distinct(rows) && forall r :: r in rows ==> FullRow(g, r, e)
    ensures var up := UpList(Survivors(g, rows, e), MarksOf(g, rows, e));
            && PassReady(Pending(g, rows, e), up)
            && Ordered(Pending(g, rows, e), up)
  {
    CountedReady(g, rows, e);
    var up := UpList(Survivors(g, rows, e), MarksOf(g, rows, e));
    var p := Pending(g, rows, e);
    forall c | c in up && Shift(p[c]).rc in up
      ensures Before(up, Shift(p[c]).rc, c)
    {
      CountedOrderAt(g, rows, e, c);
    }
  }

  /** `hasRow`: whether row `iy` is occupied across the box. */
  method RowIsFull(g: Grid, iy: int, e: Extent) returns (full: bool)
    ensures full <==> FullRow(g, iy, e)
  {
    full := true;
    var ix := e.c0;
    while ix < e.c1
      invariant ix == e.c0 || e.c0 <= ix <= e.c1
      invariant full <==> forall x :: e.c0 <= x < ix ==> Cell(x, iy) in g
    {
      full := full && Cell(ix, iy) in g;
      ix := ix + 1;
    }
  }

  /** `row`: the blocks of a full row, left to right. */
  method CollectRow(g: Grid, iy: int, e: Extent) returns (row: seq<Mark>)
    requires FullRow(g, iy, e)
    ensures row == RowMarks(g, iy, e.c0, e.c1)
  {
    row := [];
    var ix := e.c0;
    while ix < e.c1
      invariant ix == e.c0 || e.c0 <= ix <= e.c1
      invariant row == RowMarks(g, iy, e.c0, ix)
    {
      row := row + [g[Cell(ix, iy)]];
      ix := ix + 1;
    }
  }

  /** The first loop of `ClearFullRows`: the rows to clear and their blocks. */
  method FindFullRows(g: Grid, pos: Vec, blks: seq<Vec>, e: Extent)
    returns (rows: seq<int>, marks: seq<seq<Mark>>)
    ensures rows == FullRowsOf(g, pos, blks, e)
    ensures forall r :: r in rows ==> FullRow(g, r, e)
    ensures marks == MarksOf(g, rows, e)
  {
    rows, marks := [], [];
    var seen: set<int> := {};
    var i := 0;
    while i < |blks|
      invariant 0 <= i <= |blks|
      invariant rows == FullRowsOf(g, pos, blks[..i], e)
      invariant forall r :: r in rows ==> FullRow(g, r, e)
      invariant marks == MarksOf(g, rows, e)
      invariant seen == SeenRows(pos, blks[..i], e)
    {
      var p := pos.Add(blks[i].Scale(Size, Size));
      var py := TruncDiv(p.y, Size);
      assert py == RowOf(pos, blks[i]);
      BlockRow(g, pos, blks, i, e);
      rows, marks, seen := VisitRows(g, e, py, rows, marks, seen);
      i := i + 1;
    }
    assert blks[..i] == blks;
  }

  /** The inner loop of the first pass: rows `r0` to `r1 - 1` are visited and
      only the block's row `py` can be reported, once, when new and full. */
  method VisitRows(g: Grid, e: Extent, py: int, rows0: seq<int>, marks0: seq<seq<Mark>>, seen0: set<int>)
    returns (rows: seq<int>, marks: seq<seq<Mark>>, seen: set<int>)
    requires forall r :: r in rows0 ==> FullRow(g, r, e)
    requires marks0 == MarksOf(g, rows0, e)
    ensures var inside := e.r0 <= py < e.r1;
            && seen == seen0 + (if inside then {py} else {})
            && rows == rows0 + (if inside && py !in seen0 && FullRow(g, py, e) then [py] else [])
    ensures forall r :: r in rows ==> FullRow(g, r, e)
    ensures marks == MarksOf(g, rows, e)
  {
    rows, marks, seen := rows0, marks0, seen0;
    var iy := e.r0;
    while iy < e.r1
      invariant iy == e.r0 || e.r0 <= iy <= e.r1
      invariant forall r :: r in rows ==> FullRow(g, r, e)
      invariant marks == MarksOf(g, rows, e)
      invariant if e.r0 <= py < iy
                then seen == seen0 + {py} && rows == rows0 + (if py !in seen0 && FullRow(g, py, e) then [py] else [])
                else seen == seen0 && rows == rows0
    {
      if iy != py || iy in seen {
        iy := iy + 1;
        continue;
      }
      seen := seen + {iy};
      var hasRow := RowIsFull(g, iy, e);
      if !hasRow {
        iy := iy + 1;
        continue;
      }
      var row := CollectRow(g, iy, e);
      MarksSnoc(g, rows, iy, e);
      rows := rows + [iy];
      marks := marks + [row];
      iy := iy + 1;
    }
  }

  /** The delete pass: each collected block is removed from its cell. */
  method DeleteRows(g0: Grid, marks: seq<seq<Mark>>) returns (g: Grid)
    ensures g == g0 - RcSet(marks)
  {
    g := g0;
    var j := 0;
    while j < |marks|
      invariant 0 <= j <= |marks|
      invariant g == g0 - RcSet(marks[..j])
    {
      var row := marks[j];
      var k := 0;
      while k < |row|
        invariant 0 <= k <= |row|
        invariant g == g0 - (RcSet(marks[..j]) + RowRcs(row[..k]))
      {
        assert row[..k + 1][..k] == row[..k];
        g := g - {row[k].rc};
        k := k + 1;
      }
      assert row[..k] == row;
      assert marks[..j + 1][..j] == marks[..j];
      j := j + 1;
    }
    assert marks[..j] == marks;
  }

  /** `g` is `s` with the pending falls counted in `mu`, pointwise. */
  ghost predicate CountedBy(s: Grid, mu: multiset<Cell>, g: Grid)
  {
    && g.Keys == s.Keys
    && forall c :: c in g ==> g[c] == s[c].(down := s[c].down + mu[c])
  }

  lemma CountedByStep(s: Grid, mu: multiset<Cell>, g: Grid, cell: Cell)
    requires CountedBy(s, mu, g) && cell in g
    ensures CountedBy(s, mu + multiset{cell}, g[cell := g[cell].(down := g[cell].down + 1)])
  {
  }

  lemma CountedBySnoc(s: Grid, up: seq<Cell>, g: Grid, cell: Cell)
    requires CountedBy(s, multiset(up), g) && cell in g
    ensures CountedBy(s, multiset(up + [cell]), g[cell := g[cell].(down := g[cell].down + 1)])
  {
    assert multiset(up + [cell]) == multiset(up) + multiset{cell};
    CountedByStep(s, multiset(up), g, cell);
  }

  lemma CountedByDowns(s: Grid, up: seq<Cell>, g: Grid)
    ensures CountedBy(s, multiset(up), g) <==> g == Downs(s, up)
  {
  }

  /** One row of the scan: the state before visiting row `y` and after. */
  ghost predicate ScanAt(s: Grid, up0: seq<Cell>, x: int, hi: int, y: int, g: Grid, up: seq<Cell>)
  {
    && y <= hi && (y >= -1 || y == hi)
    && up == up0 + Column(s, x, hi, y + 1)
    && CountedBy(s, multiset(up), g)
  }

  lemma ScanStart(s: Grid, up0: seq<Cell>, x: int, hi: int, g0: Grid)
    requires g0 == Downs(s, up0)
    ensures ScanAt(s, up0, x, hi, hi, g0, up0)
  {
    assert up0 + Column(s, x, hi, hi + 1) == up0;
    CountedByDowns(s, up0, g0);
  }

  lemma ScanStep(s: Grid, up0: seq<Cell>, x: int, hi: int, y: int, g: Grid, up: seq<Cell>)
    requires ScanAt(s, up0, x, hi, y, g, up) && y >= 0
    ensures var cell := Cell(x, y);
            if cell in g
            then ScanAt(s, up0, x, hi, y - 1, g[cell := g[cell].(down := g[cell].down + 1)], up + [cell])
            else ScanAt(s, up0, x, hi, y - 1, g, up)
  {
    var cell := Cell(x, y);
    var col := Column(s, x, hi, y + 1);
    assert Column(s, x, hi, y) == col + (if cell in s then [cell] else []);
    if cell in g {
      assert up + [cell] == up0 + (col + [cell]);
      CountedBySnoc(s, up, g, cell);
    } else {
      assert col + [] == col;
    }
  }

  lemma ScanDone(s: Grid, up0: seq<Cell>, x: int, hi: int, y: int, g: Grid, up: seq<Cell>)
    requires ScanAt(s, up0, x, hi, y, g, up) && y < 0
    ensures up == up0 + Column(s, x, hi, 0) && g == Downs(s, up)
  {
    assert Column(s, x, hi, y + 1) == Column(s, x, hi, 0);
    CountedByDowns(s, up, g);
  }

  /** The scan above one cleared block at `rc`: rows `rc.row - 1` up to 0. */
  method ScanColumn(s: Grid, g0: Grid, up0: seq<Cell>, rc: Cell) returns (g: Grid, up: seq<Cell>)
    requires g0 == Downs(s, up0)
    ensures up == up0 + Column(s, rc.col, rc.row - 1, 0)
    ensures g == Downs(s, up)
  {
    g, up := g0, up0;
    var x, iy := rc.col, rc.row;
    var y := iy - 1;
    ScanStart(s, up0, x, y, g0);
    while y >= 0
      invariant ScanAt(s, up0, x, iy - 1, y, g, up)
      decreases y
    {
      ScanStep(s, up0, x, iy - 1, y, g, up);
      var cell := Cell(x, y);
      if cell in g {
        g := g[cell := g[cell].(down := g[cell].down + 1)];
        up := up + [cell];
      }
      assert ScanAt(s, up0, x, iy - 1, y - 1, g, up);
      y := y - 1;
    }
    ScanDone(s, up0, x, iy - 1, y, g, up);
  }

  /** The counting pass: above each collected block, every occupied cell up
      to row 0 gets one more row to fall and joins the queue. */
  method CountDrops(s: Grid, marks: seq<seq<Mark>>) returns (g: Grid, up: seq<Cell>)
    ensures up == UpList(s, marks)
    ensures g == Downs(s, up)
  {
    g, up := s, [];
    assert Downs(s, []) == s;
    var j := 0;
    while j < |marks|
      invariant 0 <= j <= |marks|
      invariant up == UpList(s, marks[..j])
      invariant g == Downs(s, up)
    {
      UpListSnoc(s, marks, j);
      g, up := ScanRow(s, g, up, marks[j]);
      j := j + 1;
    }
    assert marks[..j] == marks;
  }

  /** The scans above the blocks of one cleared row, left to right. */
  method ScanRow(s: Grid, g0: Grid, up0: seq<Cell>, row: seq<Mark>) returns (g: Grid, up: seq<Cell>)
    requires g0 == Downs(s, up0)
    ensures up == up0 + RowUps(s, row)
    ensures g == Downs(s, up)
  {
    g, up := g0, up0;
    var k := 0;
    while k < |row|
      invariant 0 <= k <= |row|
      invariant up == up0 + RowUps(s, row[..k])
      invariant g == Downs(s, up)
    {
      ghost var before := up;
      g, up := ScanColumn(s, g, up, row[k].rc);
      RowUpsStep(s, row, k, up0, before, up);
      k := k + 1;
    }
    assert row[..k] == row;
  }

  lemma RowUpsStep(s: Grid, row: seq<Mark>, k: nat, up0: seq<Cell>, before: seq<Cell>, after: seq<Cell>)
    requires k < |row|
    requires before == up0 + RowUps(s, row[..k])
    requires after == before + Column(s, row[k].rc.col, row[k].rc.row - 1, 0)
    ensures after == up0 + RowUps(s, row[..k + 1])
  {
    RowUpsSnoc(s, row, k);
  }

  lemma RowUpsSnoc(s: Grid, row: seq<Mark>, k: nat)
    requires k < |row|
    ensures RowUps(s, row[..k + 1]) == RowUps(s, row[..k]) + Column(s, row[k].rc.col, row[k].rc.row - 1, 0)
  {
    assert row[..k + 1][..k] == row[..k];
  }

  lemma UpListSnoc(s: Grid, marks: seq<seq<Mark>>, j: nat)
    requires j < |marks|
    ensures UpList(s, marks[..j + 1]) == UpList(s, marks[..j]) + RowUps(s, marks[j])
  {
    assert marks[..j + 1][..j] == marks[..j];
  }

  /** The last pass: each queued block is taken out of its current cell,
      moved down by its pending fall and filed under its new cell. The
      blocks' current state is kept in `objs`, by original cell. */
  method ApplyDrops(p: Grid, up: seq<Cell>) returns (g: Grid)
    requires PassReady(p, up) && Ordered(p, up)
    ensures g == Compact(p)
  {
    g := p;
    var objs := p;
    var i := 0;
    ExpectedStart(p, up);
    while i < |up|
      invariant 0 <= i <= |up|
      invariant objs == Objs(p, up[..i])
      invariant g == Expected(p, up, i)
    {
      ExpectedStep(p, up, i);
      ObjsStep(p, up, i);
      var m := objs[up[i]];
      g := g - {m.rc};
      var moved := m.(pos := m.pos.Add(Vec(0, m.down * Size)), rc := Cell(m.rc.col, m.rc.row + m.down), down := 0);
      assert moved == Shift(m);
      objs := objs[up[i] := moved];
      g := g[moved.rc := moved];
      i := i + 1;
    }
    ExpectedComplete(p, up);
  }
}
