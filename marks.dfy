/** A block settled on the board (mark.go) and the grid that owns the
    settled blocks (board.go's `grid`). */
module Marks {
  import opened Geometry

  /** The picture a block is drawn with; opaque to the game logic. */
  type ImageId = nat

  /** A settled block: its picture, its pixel position, its cell, and the
      number of rows it still has to fall while full rows are cleared. */
  datatype Mark = Mark(image: ImageId, pos: Vec, rc: Cell, down: int) {

    /** `mark.up`: the same block one row higher. */
    function Up(): (m: Mark)
      ensures m.rc.col == rc.col && m.rc.row + 1 == rc.row
      ensures m.(rc := rc) == this
    {
      this.(rc := Cell(rc.col, rc.row - 1))
    }

    /** `mark.in`: whether the block's cell is occupied in `g`. */
    predicate In(g: Grid)
    {
      rc in g
    }
  }

  /** The cases of `Test_Mark_In`: a block is not in an empty grid, and a
      block raised one row is in a grid holding the cell above it. */
  lemma InCases(m: Mark, g: Grid)
    ensures !m.In(map[])
    ensures m.rc == Cell(11, 18) && Cell(11, 17) in g ==> m.Up().In(g)
    ensures m.rc == Cell(11, 18) && Cell(11, 18) in g && Cell(11, 17) !in g ==> m.In(g) && !m.Up().In(g)
  {
  }

  /** The occupancy grid: cell to settled block. */
  type Grid = map<Cell, Mark>

  /** The grid's own invariant: each block is filed under its cell, and no
      block has a pending fall outside a row-clearing pass. */
  ghost predicate Filed(g: Grid)
  {
    forall k :: k in g ==> g[k].rc == k && g[k].down == 0
  }
}
