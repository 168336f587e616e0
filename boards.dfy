/** The playing field (board.go): the box the pieces fall in and the grid
    of settled blocks, with the queries the game asks before moving a
    piece, the landing of a piece, and the clearing of full rows. */
module Boards {
  import opened Geometry
  import opened Tetros
  import opened Marks
  import opened Pieces
  import opened Collapse
  import opened Clearing

  /** The pixel of a block: the anchor moved by the block's offset. */
  function BlockAt(anchor: Vec, bk: Vec): Vec
  {
    anchor.Add(bk.Scale(Size, Size))
  }

  /** `positions`: one settled block per offset, at its pixel and at the
      cell `int(x)/10, int(y)/10` of that pixel, with no pending fall. */
  function PlacedMarks(image: ImageId, anchor: Vec, blks: seq<Vec>): (ms: seq<Mark>)
    ensures |ms| == |blks|
    ensures forall i :: 0 <= i < |ms| ==>
              && ms[i].image == image && ms[i].down == 0
              && ms[i].pos == Vec(anchor.x + Size * blks[i].x, anchor.y + Size * blks[i].y)
              && ms[i].rc == CellAt(ms[i].pos)
  {
    seq(|blks|, i requires 0 <= i < |blks| =>
      Mark(image, BlockAt(anchor, blks[i]), CellAt(BlockAt(anchor, blks[i])), 0))
  }

  /** The grid after filing `ms` one by one under their cells. */
  function Placed(g: Grid, ms: seq<Mark>): Grid
  {
    if ms == [] then g else Placed(g, ms[..|ms| - 1])[ms[|ms| - 1].rc := ms[|ms| - 1]]
  }

  /** `CanGoRight`'s test of one block: left of the right wall, on a free cell. */
  predicate RightOpen(box: Rect, g: Grid, p: Vec)
  {
    p.x < box.MaxX() && CellAt(p) !in g
  }

  /** `CanGoLeft`'s test of one block: not left of the left wall, on a free cell. */
  predicate LeftOpen(box: Rect, g: Grid, p: Vec)
  {
    p.x >= box.MinX() && CellAt(p) !in g
  }

  /** `CanRotate`'s test of one block: the pixel one block to its right lies
      between the walls. The grid is not consulted. */
  predicate RotationFits(box: Rect, p: Vec)
  {
    box.MinX() <= p.x + Size <= box.MaxX()
  }

  /** The test `CanRotate` evidently means: the whole block lies between the walls. */
  predicate RotationInside(box: Rect, p: Vec)
  {
    box.MinX() <= p.x && p.x + Size <= box.MaxX()
  }

  /** `checkCollide`'s verdict: the cell under some block is occupied. */
  predicate Collides(g: Grid, anchor: Vec, blks: seq<Vec>)
  {
    exists bk :: bk in blks && CellAt(BlockAt(anchor, bk).Add(Vec(0, Size))) in g
  }

  /** `CheckBounds`'s landing test. The Go code compares `y/size` with
      `(MaxY - size)/size` in floating point, which for these whole pixel
      values is the comparison of `y` with `MaxY - size`. */
  predicate Landed(g: Grid, box: Rect, anchor: Vec, blks: seq<Vec>)
  {
    anchor.y > box.MaxY() - Size || Collides(g, anchor, blks)
  }

  /** Where a landed piece is put before it is raised out of the stack:
      on the floor row when it fell through the floor, else on its
      position floored to whole blocks. */
  function LockAnchor(box: Rect, anchor: Vec): (a: Vec)
    ensures a.y <= box.MaxY() - Size
    ensures a.x <= anchor.x && a.y <= anchor.y
    ensures a.y % Size == 0 || a.y == box.MaxY() - Size
  {
    if anchor.y > box.MaxY() - Size then Vec(anchor.x, box.MaxY() - Size)
    else Vec(FloorToSize(anchor.x), FloorToSize(anchor.y))
  }

  /** `hasOverlap`: one of the first four blocks is on an occupied cell. */
  predicate Overlap(g: Grid, ms: seq<Mark>)
    requires |ms| == 4
  {
    ms[0].In(g) || ms[1].In(g) || ms[2].In(g) || ms[3].In(g)
  }

  /** The blocks' cells `u` rows higher, their pixels unchanged (`mark.up`, `u` times). */
  function Raised(ms: seq<Mark>, u: int): (r: seq<Mark>)
    ensures |r| == |ms|
    ensures forall i :: 0 <= i < |r| ==>
              r[i].(rc := ms[i].rc) == ms[i] && r[i].rc.col == ms[i].rc.col && r[i].rc.row + u == ms[i].rc.row
  {
    seq(|ms|, i requires 0 <= i < |ms| => ms[i].(rc := Cell(ms[i].rc.col, ms[i].rc.row - u)))
  }

  /** `u` is the first number of rows whose raise clears the stack. */
  ghost predicate RestsAt(g: Grid, ms: seq<Mark>, u: nat)
    requires |ms| == 4
  {
    !Overlap(g, Raised(ms, u)) && forall v :: 0 <= v < u ==> Overlap(g, Raised(ms, v))
  }

  /** The lowest row of a non-empty set of cells. */
  ghost function MinRow(ks: set<Cell>): (m: int)
    requires ks != {}
    ensures forall k :: k in ks ==> m <= k.row
  {
    var k :| k in ks;
    if ks == {k} then k.row
    else
      var r := MinRow(ks - {k});
      if k.row < r then k.row else r
  }

  /** `topOfStack`'s loop state: `ms` are the blocks raised `up` rows, and
      every smaller raise overlapped the stack. */
  ghost predicate RaiseAt(g: Grid, marks: seq<Mark>, ms: seq<Mark>, up: nat)
  {
    && |marks| == 4 && |ms| == 4 && ms == Raised(marks, up)
    && forall v :: 0 <= v < up ==> Overlap(g, Raised(marks, v))
  }

  lemma RaisedNone(g: Grid, ms: seq<Mark>)
    requires |ms| == 4
    ensures RaiseAt(g, ms, ms, 0)
  {
    assert Raised(ms, 0) == ms;
  }

  /** One more `mark.up` on each block of an overlapping raise. */
  lemma RaiseStep(g: Grid, marks: seq<Mark>, ms: seq<Mark>, up: nat)
    requires RaiseAt(g, marks, ms, up) && Overlap(g, ms)
    ensures var next := [ms[0].Up(), ms[1].Up(), ms[2].Up(), ms[3].Up()];
            RaiseAt(g, marks, next, up + 1) && MaxRow(next) == MaxRow(ms) - 1
  {
    var next := [ms[0].Up(), ms[1].Up(), ms[2].Up(), ms[3].Up()];
    assert next == Raised(marks, up + 1);
  }

  lemma RaiseDone(g: Grid, marks: seq<Mark>, ms: seq<Mark>, up: nat)
    requires RaiseAt(g, marks, ms, up) && !Overlap(g, ms)
    ensures |ms| == 4 && ms == Raised(marks, up) && RestsAt(g, marks, up)
  {
  }

  /** An overlapping block is on a row of the stack, so the highest of the
      four is not above the stack's top row. */
  lemma OverlapBelowStack(g: Grid, ms: seq<Mark>)
    requires |ms| == 4 && Overlap(g, ms)
    ensures g.Keys != {} && MinRow(g.Keys) <= MaxRow(ms)
  {
    var i :| 0 <= i < 4 && ms[i].rc in g;
    assert ms[i].rc in g.Keys;
  }

  /** The highest row number among four blocks. */
  function MaxRow(ms: seq<Mark>): (m: int)
    requires |ms| == 4
    ensures forall i :: 0 <= i < 4 ==> ms[i].rc.row <= m
  {
    var a := if ms[0].rc.row < ms[1].rc.row then ms[1].rc.row else ms[0].rc.row;
    var b := if ms[2].rc.row < ms[3].rc.row then ms[3].rc.row else ms[2].rc.row;
    if a < b then b else a
  }

  /** `reset`'s first loop: every key already visited is the cell of a
      collected block. */
  ghost predicate Collected(g: Grid, rest: set<Cell>, marks: seq<Mark>)
  {
    forall k :: k in g && k !in rest ==> exists j :: 0 <= j < |marks| && marks[j].rc == k
  }

  lemma CollectedStep(g: Grid, rest: set<Cell>, marks: seq<Mark>, k: Cell)
    requires Filed(g) && Collected(g, rest, marks) && k in rest && k in g
    ensures Collected(g, rest - {k}, marks + [g[k]])
  {
    var ms := marks + [g[k]];
    forall c | c in g && c !in rest - {k}
      ensures exists j :: 0 <= j < |ms| && ms[j].rc == c
    {
      if c == k {
        assert ms[|marks|].rc == c;
      } else {
        var j :| 0 <= j < |marks| && marks[j].rc == c;
        assert ms[j] == marks[j];
      }
    }
  }

  /** `reset`'s second loop: every remaining key is the cell of a block
      not yet deleted. */
  ghost predicate Uncleared(g: Grid, marks: seq<Mark>, i: int)
  {
    forall k :: k in g ==> exists j :: 0 <= j < |marks| && i <= j && marks[j].rc == k
  }

  lemma UnclearedStep(g: Grid, marks: seq<Mark>, i: int)
    requires 0 <= i < |marks| && Uncleared(g, marks, i)
    ensures Uncleared(g - {marks[i].rc}, marks, i + 1)
  {
    forall k | k in g - {marks[i].rc}
      ensures exists j :: i + 1 <= j < |marks| && marks[j].rc == k
    {
      var j :| i <= j < |marks| && marks[j].rc == k;
    }
  }

  class Board {
    const box: Rect
    var grid: Grid

    /** Between operations every block is filed under its own cell, settled. */
    ghost predicate Valid()
      reads this
    {
      Filed(grid)
    }

    /** `NewBoard`: an empty grid over `box`. */
    constructor (box: Rect)
      ensures this.box == box && grid == map[] && Valid()
    {
      this.box := box;
      grid := map[];
    }

    /** `reset`: collects every block, then deletes each block's cell. */
    method Reset()
      requires Valid()
      modifies this`grid
      ensures grid == map[] && Valid()
    {
      var marks: seq<Mark> := [];
      var rest := grid.Keys;
      while rest != {}
        invariant Valid() && rest <= grid.Keys && Collected(grid, rest, marks)
        decreases |rest|
      {
        var k :| k in rest;
        CollectedStep(grid, rest, marks, k);
        marks := marks + [grid[k]];
        rest := rest - {k};
      }
      var i := 0;
      while i < |marks|
        invariant 0 <= i <= |marks| && Uncleared(grid, marks, i)
      {
        UnclearedStep(grid, marks, i);
        grid := grid - {marks[i].rc};
        i := i + 1;
      }
      assert grid.Keys == {};
    }

    /** `CanGoRight`: every block, moved one block right of the floored
        position, is left of the right wall and on a free cell. */
    method CanGoRight(t: Tetromino) returns (ok: bool)
      requires t.HasShape()
      ensures ok <==> forall bk :: bk in t.Blocks() ==>
                RightOpen(box, grid, BlockAt(t.RoundPosToSize().Add(Vec(Size, 0)), bk))
    {
      var blks := t.Blocks();
      var curr := t.RoundPosToSize().Add(Vec(Size, 0));
      for i := 0 to |blks|
        invariant forall j :: 0 <= j < i ==> RightOpen(box, grid, BlockAt(curr, blks[j]))
      {
        var pos := curr.Add(blks[i].Scale(Size, Size));
        assert blks[i] in blks;
        if pos.x >= box.MaxX() {
          return false;
        }
        var rc := CellAt(pos);
        if rc in grid {
          return false;
        }
      }
      return true;
    }

    /** `CanGoLeft`: every block, moved one block left of the floored
        position, is not left of the left wall and is on a free cell. */
    method CanGoLeft(t: Tetromino) returns (ok: bool)
      requires t.HasShape()
      ensures ok <==> forall bk :: bk in t.Blocks() ==>
                LeftOpen(box, grid, BlockAt(t.RoundPosToSize().Add(Vec(-Size, 0)), bk))
    {
      var blks := t.Blocks();
      var curr := t.RoundPosToSize().Add(Vec(-Size, 0));
      for i := 0 to |blks|
        invariant forall j :: 0 <= j < i ==> LeftOpen(box, grid, BlockAt(curr, blks[j]))
      {
        var pos := curr.Add(blks[i].Scale(Size, Size));
        assert blks[i] in blks;
        if pos.x < box.MinX() {
          return false;
        }
        var rc := CellAt(pos);
        if rc in grid {
          return false;
        }
      }
      return true;
    }

    /** `CanRotate`: every block of the next rotation state, at the
        unrounded position, passes the wall test; the grid is not consulted.
        The next state must index the table, else the Go code panics. */
    method CanRotate(t: Tetromino) returns (ok: bool)
      requires IsKind(t.tetro) && HasState(t.tetro, Inc(t.rot, t.tetro))
      ensures ok <==> forall bk :: bk in Tetros.Blocks(t.tetro, Inc(t.rot, t.tetro)) ==>
                RotationFits(box, BlockAt(t.pos, bk))
    {
      var blks := Tetros.Blocks(t.tetro, Inc(t.rot, t.tetro));
      var curr := t.pos;
      for i := 0 to |blks|
        invariant forall j :: 0 <= j < i ==> RotationFits(box, BlockAt(curr, blks[j]))
      {
        var pos := curr.Add(blks[i].Scale(Size, Size));
        var x := pos.x + Size;
        assert blks[i] in blks;
        if x > box.MaxX() {
          return false;
        }
        if x < box.MinX() {
          return false;
        }
      }
      return true;
    }

    /** `checkCollide`: the cell one block below some block is occupied. */
    method CheckCollide(t: Tetromino) returns (hit: bool)
      requires t.HasShape()
      ensures hit <==> Collides(grid, t.pos, t.Blocks())
    {
      var blks := t.Blocks();
      for i := 0 to |blks|
        invariant forall j :: 0 <= j < i ==> CellAt(BlockAt(t.pos, blks[j]).Add(Vec(0, Size))) !in grid
      {
        var p := t.pos.Add(blks[i].Scale(Size, Size)).Add(Vec(0, Size));
        var rc := CellAt(p);
        if rc in grid {
          assert blks[i] in blks;
          return true;
        }
      }
      forall bk | bk in blks
        ensures CellAt(BlockAt(t.pos, bk).Add(Vec(0, Size))) !in grid
      {
        var j :| 0 <= j < |blks| && blks[j] == bk;
      }
      return false;
    }

    /** `positions`: the piece's blocks as settled blocks. */
    function Positions(t: Tetromino): (ms: seq<Mark>)
      reads t
      requires t.HasShape()
      ensures |ms| == 4
      ensures forall i :: 0 <= i < 4 ==>
                ms[i].image == t.image && ms[i].down == 0 && ms[i].rc == CellAt(ms[i].pos)
    {
      PlacedMarks(t.image, t.pos, t.Blocks())
    }

    /** `topOfStack`: raises the four blocks a row at a time while one of
        them overlaps the stack, then moves the piece up by as many rows.
        The raised blocks are returned; the Go code mutates them in place. */
    method TopOfStack(t: Tetromino, marks: seq<Mark>) returns (up: nat, ms: seq<Mark>)
      requires |marks| == 4
      modifies t`pos
      ensures |ms| == 4 && ms == Raised(marks, up) && RestsAt(grid, marks, up)
      ensures t.pos == Vec(old(t.pos).x, old(t.pos).y - Size * up)
    {
      ghost var lo := if grid.Keys == {} then 0 else MinRow(grid.Keys);
      ms := marks;
      up := 0;
      RaisedNone(grid, marks);
      while Overlap(grid, ms)
        invariant RaiseAt(grid, marks, ms, up) && t.pos == old(t.pos)
        decreases MaxRow(ms) - lo
      {
        OverlapBelowStack(grid, ms);
        RaiseStep(grid, marks, ms, up);
        ms := [ms[0].Up(), ms[1].Up(), ms[2].Up(), ms[3].Up()];
        up := up + 1;
      }
      RaiseDone(grid, marks, ms, up);
      if up == 0 {
        return;
      }
      t.pos := t.pos.Sub(Vec(0, Size * up));
    }

    /** `finalizePosition`: files the piece's blocks under their cells. */
    method FinalizePosition(t: Tetromino)
      requires Valid() && t.HasShape()
      modifies this`grid
      ensures Valid()
      ensures grid == Placed(old(grid), Positions(t))
    {
      var marks := Positions(t);
      ghost var g0 := grid;
      var i := 0;
      while i < |marks|
        invariant 0 <= i <= |marks|
        invariant grid == Placed(g0, marks[..i])
      {
        PlacedStep(g0, marks, i);
        grid := grid[marks[i].rc := marks[i]];
        i := i + 1;
      }
      assert marks[..|marks|] == marks;
      PlacedFiled(g0, marks);
    }

    /** `CheckBounds`: a piece that fell through the floor or rests on the
        stack is snapped, raised clear of the stack, frozen and filed into
        the grid; any other piece is left alone. Filing never overwrites a
        settled block when the snapped row is whole blocks (always when it
        collided; when it fell through, if the floor is on a block line). */
    method CheckBounds(t: Tetromino)
      requires Valid() && (!t.isFrozen ==> t.HasShape())
      modifies this`grid, t`pos, t`isFrozen
      ensures Valid()
      ensures old(t.isFrozen) || !Landed(old(grid), box, old(t.pos), t.Blocks()) ==>
                t.isFrozen == old(t.isFrozen) && t.pos == old(t.pos) && grid == old(grid)
      ensures !old(t.isFrozen) && Landed(old(grid), box, old(t.pos), t.Blocks()) ==>
                t.isFrozen && Locked(old(grid), grid, t.image, LockAnchor(box, old(t.pos)), t.pos, t.Blocks())
    {
      if t.isFrozen {
        return;
      }
      if t.pos.y > box.MaxY() - Size {
        t.pos := Vec(t.pos.x, box.MaxY() - Size);
        t.isFrozen := true;
        Lock(t);
        return;
      }
      var hit := CheckCollide(t);
      if hit {
        t.pos := t.RoundPosToSize();
        t.isFrozen := true;
        Lock(t);
        return;
      }
    }

    /** The steps both landing cases of `CheckBounds` share: take the
        blocks, raise the piece to the top of the stack, file it. */
    method Lock(t: Tetromino)
      requires Valid() && t.HasShape()
      modifies this`grid, t`pos
      ensures Valid() && Locked(old(grid), grid, t.image, old(t.pos), t.pos, t.Blocks())
    {
      var marks := Positions(t);
      ghost var g0, anchor, blks := grid, t.pos, t.Blocks();
      var up, ms := TopOfStack(t, marks);
      ghost var pos := t.pos;
      assert t.Blocks() == blks && pos == Vec(anchor.x, anchor.y - Size * up);
      assert RestsAt(g0, PlacedMarks(t.image, anchor, blks), up);
      FinalizePosition(t);
      assert grid == Placed(g0, PlacedMarks(t.image, pos, blks));
      LockSpec(g0, t.image, anchor, blks, up);
    }

    /** `ClearFullRows`: reports the full rows the piece's blocks lie on,
        deletes them, and lets every block above a deleted block fall by the
        number of deleted blocks beneath it. */
    method ClearFullRows(t: Tetromino) returns (rows: seq<int>)
      requires Valid() && t.HasShape()
      modifies this`grid
      ensures Valid() && Distinct(rows)
      ensures rows == FullRowsOf(old(grid), t.pos, t.Blocks(), CellExtent(box))
      ensures grid == Collapsed(old(grid), rows, CellExtent(box))
    {
      var e := CellExtent(box);
      ghost var g0 := grid;
      var marks;
      rows, marks := FindFullRows(grid, t.pos, t.Blocks(), e);
      FullRowsSpec(g0, t.pos, t.Blocks(), e);
      DeletedAreSurvivors(g0, rows, e);
      grid := DeleteRows(grid, marks);
      var up;
      grid, up := CountDrops(grid, marks);
      CountedDowns(g0, rows, e);
      CountedOrder(g0, rows, e);
      grid := ApplyDrops(grid, up);
      CollapsedOnlyMoves(g0, rows, e);
    }
  }

  /** When no row the piece touches is full, `ClearFullRows` reports
      nothing and leaves the grid as it was. */
  lemma NoFullRowKeepsGrid(g: Grid, pos: Vec, blks: seq<Vec>, e: Extent)
    requires Filed(g)
    requires forall bk :: bk in blks && e.r0 <= RowOf(pos, bk) < e.r1 ==> !FullRow(g, RowOf(pos, bk), e)
    ensures FullRowsOf(g, pos, blks, e) == [] && Collapsed(g, [], e) == g
  {
    var rows := FullRowsOf(g, pos, blks, e);
    FullRowsSpec(g, pos, blks, e);
    assert forall i :: 0 <= i < |rows| ==> rows[i] in rows;
    CollapsedNoRows(g, e);
  }

  /** Filing settled blocks adds exactly their cells, keeps every other
      block, and, when their cells are distinct, leaves each under its cell. */
  lemma {:induction false} PlacedSpec(g: Grid, ms: seq<Mark>)
    ensures forall k :: k in Placed(g, ms) <==> k in g || exists i :: 0 <= i < |ms| && ms[i].rc == k
    ensures forall k :: k in g && (forall i :: 0 <= i < |ms| ==> ms[i].rc != k) ==> Placed(g, ms)[k] == g[k]
    ensures (forall i, j :: 0 <= i < j < |ms| ==> ms[i].rc != ms[j].rc) ==>
              forall i :: 0 <= i < |ms| ==> Placed(g, ms)[ms[i].rc] == ms[i]
  {
    if ms != [] {
      var pre := ms[..|ms| - 1];
      PlacedSpec(g, pre);
      forall k | k in g || exists i :: 0 <= i < |ms| && ms[i].rc == k
        ensures k in Placed(g, ms)
      {
        if k !in g {
          var i :| 0 <= i < |ms| && ms[i].rc == k;
          if i < |ms| - 1 {
            assert pre[i] == ms[i];
          }
        }
      }
      forall k | k in Placed(g, ms) && k != ms[|ms| - 1].rc && k !in g
        ensures exists i :: 0 <= i < |ms| && ms[i].rc == k
      {
        var i :| 0 <= i < |pre| && pre[i].rc == k;
        assert ms[i] == pre[i];
      }
      forall k | k in g && (forall i :: 0 <= i < |ms| ==> ms[i].rc != k)
        ensures Placed(g, ms)[k] == g[k]
      {
        assert forall i :: 0 <= i < |pre| ==> pre[i] == ms[i];
      }
      if forall i, j :: 0 <= i < j < |ms| ==> ms[i].rc != ms[j].rc {
        forall i | 0 <= i < |ms|
          ensures Placed(g, ms)[ms[i].rc] == ms[i]
        {
          if i < |ms| - 1 {
            assert pre[i] == ms[i];
            assert forall a, b :: 0 <= a < b < |pre| ==> pre[a].rc != pre[b].rc by {
              forall a, b | 0 <= a < b < |pre|
                ensures pre[a].rc != pre[b].rc
              {
                assert pre[a] == ms[a] && pre[b] == ms[b];
              }
            }
          }
        }
      }
    }
  }

  /** Filing one more block files it over the grid filed so far. */
  lemma PlacedStep(g: Grid, ms: seq<Mark>, i: int)
    requires 0 <= i < |ms|
    ensures Placed(g, ms[..i + 1]) == Placed(g, ms[..i])[ms[i].rc := ms[i]]
  {
    assert ms[..i + 1][..i] == ms[..i];
  }

  /** Filing settled blocks under their own cells keeps the grid filed. */
  lemma {:induction false} PlacedFiled(g: Grid, ms: seq<Mark>)
    requires Filed(g) && forall i :: 0 <= i < |ms| ==> ms[i].down == 0
    ensures Filed(Placed(g, ms))
  {
    if ms != [] {
      PlacedFiled(g, ms[..|ms| - 1]);
    }
  }

  /** On a whole-block anchor, the blocks of distinct offsets land in
      distinct cells: the anchor's cell moved by each offset. */
  lemma PlacedMarksCells(image: ImageId, anchor: Vec, blks: seq<Vec>)
    requires anchor.x % Size == 0 && anchor.y % Size == 0
    requires forall i, j :: 0 <= i < j < |blks| ==> blks[i] != blks[j]
    ensures var ms := PlacedMarks(image, anchor, blks);
            && |ms| == |blks|
            && (forall i :: 0 <= i < |ms| ==>
                  ms[i].rc == Cell(anchor.x / Size + blks[i].x, anchor.y / Size + blks[i].y)
                  && ms[i].down == 0 && ms[i].image == image)
            && (forall i, j :: 0 <= i < j < |ms| ==> ms[i].rc != ms[j].rc)
  {
    forall i | 0 <= i < |blks|
      ensures CellAt(BlockAt(anchor, blks[i])) == Cell(anchor.x / Size + blks[i].x, anchor.y / Size + blks[i].y)
    {
      CellAtAligned(anchor, blks[i].x, blks[i].y);
    }
  }

  /** On a whole-row anchor, raising the piece by `u` rows gives the cells
      of the blocks raised `u` rows. */
  lemma RaisedPlacedMarks(image: ImageId, anchor: Vec, blks: seq<Vec>, u: int)
    requires anchor.y % Size == 0
    ensures var a, b := PlacedMarks(image, Vec(anchor.x, anchor.y - Size * u), blks),
                        Raised(PlacedMarks(image, anchor, blks), u);
            |a| == |b| && forall i :: 0 <= i < |a| ==> a[i].rc == b[i].rc
  {
    var k := anchor.y / Size;
    forall i | 0 <= i < |blks|
      ensures TruncDiv(anchor.y - Size * u + blks[i].y * Size, Size) == TruncDiv(anchor.y + blks[i].y * Size, Size) - u
    {
      assert anchor.y - Size * u + blks[i].y * Size == (k - u + blks[i].y) * Size;
      assert anchor.y + blks[i].y * Size == (k + blks[i].y) * Size;
      TruncDivMultiple(k - u + blks[i].y);
      TruncDivMultiple(k + blks[i].y);
    }
  }

  /** What landing does to the grid and the piece's position: the piece,
      put at `anchor`, is raised by the first number of rows `up` that
      clears the stack and ends at `pos`; `g1` is `g0` with its blocks filed;
      and when `anchor` is on a block line no block of `g0` is overwritten. */
  ghost predicate Locked(g0: Grid, g1: Grid, image: ImageId, anchor: Vec, pos: Vec, blks: seq<Vec>)
    requires |blks| == 4
  {
    && (exists up: nat :: RestsAt(g0, PlacedMarks(image, anchor, blks), up)
                       && pos == Vec(anchor.x, anchor.y - Size * up))
    && g1 == Placed(g0, PlacedMarks(image, pos, blks))
    && (anchor.y % Size == 0 ==> forall k :: k in g0 ==> k in g1 && g1[k] == g0[k])
  }

  /** Raising the piece by the rows `topOfStack` finds and filing it
      establishes `Locked` and keeps the grid filed. */
  lemma LockSpec(g0: Grid, image: ImageId, anchor: Vec, blks: seq<Vec>, up: nat)
    requires Filed(g0) && |blks| == 4
    requires RestsAt(g0, PlacedMarks(image, anchor, blks), up)
    ensures var pos := Vec(anchor.x, anchor.y - Size * up);
            var g1 := Placed(g0, PlacedMarks(image, pos, blks));
            Filed(g1) && Locked(g0, g1, image, anchor, pos, blks)
  {
    var pos := Vec(anchor.x, anchor.y - Size * up);
    if anchor.y % Size == 0 {
      LockKeepsStack(g0, image, anchor, blks, up);
    }
    PlacedFiled(g0, PlacedMarks(image, pos, blks));
  }

  /** On a whole-row anchor, filing the piece raised clear of the stack
      overwrites no block of the stack. */
  lemma LockKeepsStack(g: Grid, image: ImageId, anchor: Vec, blks: seq<Vec>, up: nat)
    requires anchor.y % Size == 0 && |blks| == 4
    requires !Overlap(g, Raised(PlacedMarks(image, anchor, blks), up))
    ensures var placed := PlacedMarks(image, Vec(anchor.x, anchor.y - Size * up), blks);
            forall k :: k in g ==> k in Placed(g, placed) && Placed(g, placed)[k] == g[k]
  {
    var placed := PlacedMarks(image, Vec(anchor.x, anchor.y - Size * up), blks);
    var ms := Raised(PlacedMarks(image, anchor, blks), up);
    RaisedPlacedMarks(image, anchor, blks, up);
    assert !ms[0].In(g) && !ms[1].In(g) && !ms[2].In(g) && !ms[3].In(g);
    assert forall i :: 0 <= i < 4 ==> placed[i].rc !in g;
    PlacedSpec(g, placed);
  }

  /** A block of the piece floored to whole blocks and moved by `dx` has
      the pixel column and the cell of the same block of the piece moved by
      `dx` without flooring, when x is whole and y is whole or the block is
      not above row 0. */
  lemma FlooredBlockCell(pos: Vec, dx: int, bk: Vec)
    requires pos.x % Size == 0
    requires pos.y % Size == 0 || pos.y + Size * bk.y >= 0
    ensures var p := BlockAt(Vec(FloorToSize(pos.x), FloorToSize(pos.y)).Add(Vec(dx, 0)), bk);
            var q := Vec(pos.x + dx + Size * bk.x, pos.y + Size * bk.y);
            p.x == q.x && CellAt(p) == CellAt(q)
  {
    FloorToSizeFixes(pos.x);
    FloorToSizeFixes(pos.y);
    if pos.y % Size != 0 {
      FloorThenTruncate(pos.y, bk.y);
    }
  }

  /** The mark `positions` files for block `i` of the piece moved by `dx`
      has the pixel column and the cell of that block floored to whole
      blocks and moved by `dx`, when x is whole and y is whole or the block
      is not above row 0. */
  lemma MovedMarkAgrees(image: ImageId, pos: Vec, dx: int, blks: seq<Vec>, i: int)
    requires pos.x % Size == 0 && 0 <= i < |blks|
    requires pos.y % Size == 0 || pos.y + Size * blks[i].y >= 0
    ensures var m := PlacedMarks(image, Vec(pos.x + dx, pos.y), blks)[i];
            var p := BlockAt(Vec(FloorToSize(pos.x), FloorToSize(pos.y)).Add(Vec(dx, 0)), blks[i]);
            m.pos.x == p.x && m.rc == CellAt(p)
  {
    FlooredBlockCell(pos, dx, blks[i]);
  }

  /** `CanGoRight`'s test on the floored position, passed by every block,
      means the marks of the piece moved one block right are left of the
      right wall and on free cells only. */
  lemma MovedRightFree(box: Rect, g: Grid, image: ImageId, pos: Vec, blks: seq<Vec>)
    requires pos.x % Size == 0
    requires pos.y % Size == 0 || forall bk :: bk in blks ==> pos.y + Size * bk.y >= 0
    requires forall bk :: bk in blks ==>
               RightOpen(box, g, BlockAt(Vec(FloorToSize(pos.x), FloorToSize(pos.y)).Add(Vec(Size, 0)), bk))
    ensures forall m :: m in PlacedMarks(image, Vec(pos.x + Size, pos.y), blks) ==>
              m.pos.x < box.MaxX() && m.rc !in g
  {
    var ms := PlacedMarks(image, Vec(pos.x + Size, pos.y), blks);
    forall i | 0 <= i < |ms|
      ensures ms[i].pos.x < box.MaxX() && ms[i].rc !in g
    {
      assert blks[i] in blks;
      MovedMarkAgrees(image, pos, Size, blks, i);
    }
  }

  /** `CanGoLeft`'s test on the floored position, passed by every block,
      means the marks of the piece moved one block left are not left of the
      left wall and are on free cells only. */
  lemma MovedLeftFree(box: Rect, g: Grid, image: ImageId, pos: Vec, blks: seq<Vec>)
    requires pos.x % Size == 0
    requires pos.y % Size == 0 || forall bk :: bk in blks ==> pos.y + Size * bk.y >= 0
    requires forall bk :: bk in blks ==>
               LeftOpen(box, g, BlockAt(Vec(FloorToSize(pos.x), FloorToSize(pos.y)).Add(Vec(-Size, 0)), bk))
    ensures forall m :: m in PlacedMarks(image, Vec(pos.x - Size, pos.y), blks) ==>
              m.pos.x >= box.MinX() && m.rc !in g
  {
    var ms := PlacedMarks(image, Vec(pos.x - Size, pos.y), blks);
    forall i | 0 <= i < |ms|
      ensures ms[i].pos.x >= box.MinX() && ms[i].rc !in g
    {
      assert blks[i] in blks;
      MovedMarkAgrees(image, pos, -Size, blks, i);
    }
  }

  /** On a position whole in x and either whole in y or with no block above
      row 0, `CanGoRight` means the piece moved one block right is left of
      the right wall and on free cells only. */
  lemma RightMoveIsFree(box: Rect, g: Grid, t: Tetromino)
    requires t.HasShape() && t.pos.x % Size == 0
    requires t.pos.y % Size == 0 || forall bk :: bk in t.Blocks() ==> t.pos.y + Size * bk.y >= 0
    requires forall bk :: bk in t.Blocks() ==> RightOpen(box, g, BlockAt(t.RoundPosToSize().Add(Vec(Size, 0)), bk))
    ensures forall m :: m in PlacedMarks(t.image, Vec(t.pos.x + Size, t.pos.y), t.Blocks()) ==>
              m.pos.x < box.MaxX() && m.rc !in g
  {
    MovedRightFree(box, g, t.image, t.pos, t.Blocks());
  }

  /** On a position whole in x and either whole in y or with no block above
      row 0, `CanGoLeft` means the piece moved one block left is not left of
      the left wall and is on free cells only. */
  lemma LeftMoveIsFree(box: Rect, g: Grid, t: Tetromino)
    requires t.HasShape() && t.pos.x % Size == 0
    requires t.pos.y % Size == 0 || forall bk :: bk in t.Blocks() ==> t.pos.y + Size * bk.y >= 0
    requires forall bk :: bk in t.Blocks() ==> LeftOpen(box, g, BlockAt(t.RoundPosToSize().Add(Vec(-Size, 0)), bk))
    ensures forall m :: m in PlacedMarks(t.image, Vec(t.pos.x - Size, t.pos.y), t.Blocks()) ==>
              m.pos.x >= box.MinX() && m.rc !in g
  {
    MovedLeftFree(box, g, t.image, t.pos, t.Blocks());
  }

  /** On a whole-block anchor, a collision means the cell right under one
      of the piece's cells is occupied. */
  lemma CollidesBelow(g: Grid, anchor: Vec, blks: seq<Vec>)
    requires anchor.x % Size == 0 && anchor.y % Size == 0
    ensures Collides(g, anchor, blks) <==>
              exists i :: 0 <= i < |blks| &&
                var c := CellAt(BlockAt(anchor, blks[i])); Cell(c.col, c.row + 1) in g
  {
    forall i | 0 <= i < |blks|
      ensures CellAt(BlockAt(anchor, blks[i])) == Cell(anchor.x / Size + blks[i].x, anchor.y / Size + blks[i].y)
      ensures CellAt(BlockAt(anchor, blks[i]).Add(Vec(0, Size)))
           == Cell(anchor.x / Size + blks[i].x, anchor.y / Size + blks[i].y + 1)
    {
      CellAtAligned(anchor, blks[i].x, blks[i].y);
      CellAtAligned(anchor, blks[i].x, blks[i].y + 1);
    }
    if Collides(g, anchor, blks) {
      var bk :| bk in blks && CellAt(BlockAt(anchor, bk).Add(Vec(0, Size))) in g;
      var i :| 0 <= i < |blks| && blks[i] == bk;
    }
  }

  /** On whole-block walls and positions, `CanRotate`'s wall test accepts
      a block one column left of the box: it checks the block's right edge
      against both walls. */
  lemma RotationFitsColumns(box: Rect, p: Vec)
    requires box.x % Size == 0 && box.w % Size == 0 && box.x >= 0 && box.w >= 0
    requires p.x % Size == 0 && p.x >= 0
    ensures var e := CellExtent(box);
            RotationFits(box, p) <==> e.c0 - 1 <= CellAt(p).col < e.c1
  {
    ExtentColumns(box);
    TruncDivMultiple(p.x / Size);
  }

  /** The evident intent: on whole-block walls and positions, the corrected
      test accepts exactly the blocks in a column of the box. */
  lemma RotationInsideColumns(box: Rect, p: Vec)
    requires box.x % Size == 0 && box.w % Size == 0 && box.x >= 0 && box.w >= 0
    requires p.x % Size == 0 && p.x >= 0
    ensures var e := CellExtent(box);
            RotationInside(box, p) <==> e.c0 <= CellAt(p).col < e.c1
  {
    ExtentColumns(box);
    TruncDivMultiple(p.x / Size);
  }

  /** On the game's box, a rotation state whose block sits in column 1,
      left of the box's first column 2, passes `CanRotate`'s test. */
  lemma RotationFitsOverhang()
    ensures RotationFits(Rect(20, 20, 100, 200), Vec(10, 50))
    ensures CellAt(Vec(10, 50)).col < CellExtent(Rect(20, 20, 100, 200)).c0
    ensures !RotationInside(Rect(20, 20, 100, 200), Vec(10, 50))
  {
    GameExtent();
  }


  /** In play the anchor never lies left of the box, as `CanGoLeft` keeps
      it; there, the test as written and the corrected one agree, so the
      overhang is reachable only by calling `CanRotate` on such a piece. */
  lemma RotationFitsInPlay(box: Rect, anchor: Vec, blks: seq<Vec>)
    requires anchor.x >= box.MinX() && WellFormedState(blks)
    ensures forall bk :: bk in blks ==>
              (RotationFits(box, BlockAt(anchor, bk)) <==> RotationInside(box, BlockAt(anchor, bk)))
  {
    forall bk | bk in blks
      ensures BlockAt(anchor, bk).x >= box.MinX()
    {
      var i :| 0 <= i < |blks| && blks[i] == bk;
    }
  }
}
