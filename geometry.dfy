/** Integer geometry used by the board and the pieces: vectors, cells,
    rectangles, and the two integer roundings the Go code relies on
    (truncating division and flooring to a multiple of the block size). */
module Geometry {

  /** The block size shared by every piece and by the grid, in pixels. */
  const Size: int := 10

  /** A pixel position or displacement. The Go code uses float64 vectors;
      every position it reaches is a whole number of pixels here. */
  datatype Vec = Vec(x: int, y: int) {
    function Add(o: Vec): Vec { Vec(x + o.x, y + o.y) }
    function Sub(o: Vec): Vec { Vec(x - o.x, y - o.y) }
    function Scale(sx: int, sy: int): Vec { Vec(x * sx, y * sy) }
  }

  /** A grid cell `[col, row]`: the key of the board's grid. Rows grow
      downwards, as screen coordinates do. */
  datatype Cell = Cell(col: int, row: int)

  /** An axis-aligned rectangle with corner `(x, y)` and dimensions `(w, h)`. */
  datatype Rect = Rect(x: int, y: int, w: int, h: int) {
    function MinX(): int { x }
    function MaxX(): int { x + w }
    function MaxY(): int { y + h }
  }

  /** Go's integer division `a / d`, which truncates toward zero. */
  function TruncDiv(a: int, d: int): (q: int)
    requires d > 0
    ensures a >= 0 ==> 0 <= a - q * d < d
    ensures a < 0 ==> -d < a - q * d <= 0
  {
    if a >= 0 then a / d else -((-a) / d)
  }

  /** Go's remainder `a % d`: it takes the sign of `a`. */
  function TruncRem(a: int, d: int): (r: int)
    requires d > 0
    ensures a == TruncDiv(a, d) * d + r
    ensures a >= 0 ==> 0 <= r < d
    ensures a < 0 ==> -d < r <= 0
  {
    if a >= 0 then a % d else -((-a) % d)
  }

  /** The two conditions of TruncDiv's contract pin its result down. */
  lemma TruncDivUnique(a: int, q: int)
    requires a >= 0 ==> 0 <= a - q * Size < Size
    requires a < 0 ==> -Size < a - q * Size <= 0
    ensures q == TruncDiv(a, Size)
  {
  }

  /** On whole multiples of the block size both roundings agree, whatever the sign. */
  lemma TruncDivMultiple(k: int)
    ensures TruncDiv(k * Size, Size) == k
  {
    TruncDivUnique(k * Size, k);
  }

  /** Truncation and Dafny's floor division differ on negative non-multiples:
      a pixel at y = -5 lies in row 0 for the Go code. */
  lemma TruncDivIsNotFloor()
    ensures TruncDiv(-5, Size) == 0 && -5 / Size == -1
  {
  }

  /** `math.Floor(v / size) * size`: the largest multiple of the block size
      that is not above `v`. */
  function FloorToSize(v: int): (r: int)
    ensures r % Size == 0
    ensures r <= v < r + Size
  {
    (v / Size) * Size
  }

  lemma {:induction false} FloorToSizeIdempotent(v: int)
    ensures FloorToSize(FloorToSize(v)) == FloorToSize(v)
  {
    var r := FloorToSize(v);
    var k := v / Size;
    assert r == k * Size;
    assert r / Size == k;
  }

  /** Flooring fixes exactly the multiples of the block size. */
  lemma FloorToSizeFixes(v: int)
    ensures FloorToSize(v) == v <==> v % Size == 0
  {
  }

  /** Moving a floored coordinate by whole blocks lands in the same cell as
      moving the coordinate itself, as long as the result is not negative. */
  lemma FloorThenTruncate(v: int, k: int)
    requires v + k * Size >= 0
    ensures TruncDiv(FloorToSize(v) + k * Size, Size) == TruncDiv(v + k * Size, Size)
  {
    var q := v / Size;
    assert FloorToSize(v) + k * Size == (q + k) * Size;
    assert v + k * Size == (q + k) * Size + v % Size;
    TruncDivMultiple(q + k);
    TruncDivUnique(v + k * Size, q + k);
  }

  /** The cell holding pixel `p`, as the board computes it: `int(x)/10`. */
  function CellAt(p: Vec): (c: Cell)
    ensures p.x >= 0 ==> c.col * Size <= p.x < c.col * Size + Size
    ensures p.y >= 0 ==> c.row * Size <= p.y < c.row * Size + Size
  {
    Cell(TruncDiv(p.x, Size), TruncDiv(p.y, Size))
  }

  /** A grid-aligned pixel lies in the cell its coordinates name, and moving
      it by whole blocks moves its cell by as many. */
  lemma CellAtAligned(p: Vec, dc: int, dr: int)
    requires p.x % Size == 0 && p.y % Size == 0
    ensures CellAt(p.Add(Vec(dc * Size, dr * Size)))
         == Cell(p.x / Size + dc, p.y / Size + dr)
  {
    var a, b := p.x / Size, p.y / Size;
    assert p.x + dc * Size == (a + dc) * Size;
    assert p.y + dr * Size == (b + dr) * Size;
    TruncDivMultiple(a + dc);
    TruncDivMultiple(b + dr);
  }
}
