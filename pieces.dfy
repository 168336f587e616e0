/** The falling piece (tetromino.go). */
module Pieces {
  import opened Geometry
  import opened Tetros
  import opened Marks

  /** `Max`/`Center`'s per-kind dimensions, in blocks: the extent of the
      kind's first rotation state. A kind outside I..L panics. */
  function Dims(t: Tetro): (d: Vec)
    requires IsKind(t)
    ensures forall b :: b in Shapes(t)[0] ==> 0 <= b.x < d.x && -d.y < b.y <= 0
    ensures exists b :: b in Shapes(t)[0] && b.x == d.x - 1
    ensures exists b :: b in Shapes(t)[0] && b.y == 1 - d.y
  {
    var d :=
      if t == I then Vec(1, 4)
      else if t == O then Vec(2, 2)
      else if t == T then Vec(3, 2)
      else if t == S then Vec(3, 2)
      else if t == Z then Vec(3, 2)
      else if t == J then Vec(2, 3)
      else Vec(2, 3);
    var s := Shapes(t)[0];
    assert s[0] in s && s[1] in s && s[2] in s && s[3] in s;
    d
  }

  /** The falling piece: its picture, anchor position in pixels, kind,
      rotation state, velocity and whether it has locked into the board.
      Its `size` field is always the block size and is the constant `Size`. */
  class Tetromino {
    const image: ImageId
    var pos: Vec
    var tetro: Tetro
    var rot: Rotation
    var velocity: Vec
    var isFrozen: bool

    constructor (image: ImageId, pos: Vec, tetro: Tetro, rot: Rotation, velocity: Vec)
      ensures this.image == image && this.pos == pos && this.tetro == tetro
      ensures this.rot == rot && this.velocity == velocity && !isFrozen
    {
      this.image := image;
      this.pos := pos;
      this.tetro := tetro;
      this.rot := rot;
      this.velocity := velocity;
      this.isFrozen := false;
    }

    /** Whether `rot` names one of the kind's states, so that `blocks` does
        not panic. */
    predicate HasShape()
      reads this
    {
      HasState(tetro, rot)
    }

    /** `Update`: once frozen the piece stays put; otherwise it is displaced
        by `step`, which stands for velocity times the frame's seconds. */
    method Update(step: Vec)
      modifies this`pos
      ensures old(isFrozen) ==> pos == old(pos)
      ensures !old(isFrozen) ==> pos == old(pos).Add(step)
    {
      if isFrozen {
        return;
      }
      pos := pos.Add(step);
    }

    /** `MoveRight`: one block to the right, unless frozen. */
    method MoveRight()
      modifies this`pos
      ensures pos == if old(isFrozen) then old(pos) else Vec(old(pos).x + Size, old(pos).y)
    {
      if isFrozen {
        return;
      }
      pos := pos.Add(Vec(Size, 0));
    }

    /** `MoveLeft`: one block to the left, unless frozen. */
    method MoveLeft()
      modifies this`pos
      ensures pos == if old(isFrozen) then old(pos) else Vec(old(pos).x - Size, old(pos).y)
    {
      if isFrozen {
        return;
      }
      pos := pos.Add(Vec(-Size, 0));
    }

    /** `RotateRight`: the kind's next rotation state, unless frozen. */
    method RotateRight()
      requires !isFrozen ==> IsKind(tetro)
      modifies this`rot
      ensures rot == if old(isFrozen) then old(rot) else Inc(old(rot), tetro)
    {
      if isFrozen {
        return;
      }
      rot := Inc(rot, tetro);
    }

    /** `Accelerate`: the fast drop speed, frozen or not. */
    method Accelerate()
      modifies this`velocity
      ensures velocity == Vec(0, 600)
    {
      velocity := Vec(0, 600);
    }

    /** `roundPosToSize`: the position floored to whole blocks on both axes. */
    function RoundPosToSize(): (r: Vec)
      reads this
      ensures r.x % Size == 0 && r.y % Size == 0
      ensures r.x <= pos.x < r.x + Size && r.y <= pos.y < r.y + Size
    {
      Vec(FloorToSize(pos.x), FloorToSize(pos.y))
    }

    /** `blocks`: the offsets of the current rotation state. */
    function Blocks(): (b: seq<Vec>)
      reads this
      requires HasShape()
      ensures WellFormedState(b) && b in Shapes(tetro)
    {
      Tetros.Blocks(tetro, rot)
    }

    /** `Max`: the anchor moved by the kind's dimensions, in pixels. */
    function Max(): (r: Vec)
      reads this
      requires IsKind(tetro)
      ensures r.Sub(pos) == Dims(tetro).Scale(Size, Size)
    {
      pos.Add(Dims(tetro).Scale(Size, Size))
    }

    /** `Center`: half the kind's dimensions in pixels; exact, since the
        dimensions are whole blocks of an even size. */
    function Center(): (r: Vec)
      reads this
      requires IsKind(tetro)
      ensures r.Scale(2, 2) == Dims(tetro).Scale(Size, Size)
    {
      var d := Dims(tetro).Scale(Size, Size);
      Vec(d.x / 2, d.y / 2)
    }

    /** `MoveCenterTo`: places the piece so that its centre (with the y axis
        flipped) is at `c`, one row higher. */
    method MoveCenterTo(c: Vec)
      requires IsKind(tetro)
      modifies this`pos
      ensures pos.Add(Vec(Center().x, -Center().y)).Add(Vec(0, 10)) == c
    {
      var center := Center();
      pos := c.Sub(center.Scale(1, -1)).Sub(Vec(0, 10));
    }
  }

  /** A right move followed by a left move puts the piece back where it was. */
  method MoveRightThenLeft(t: Tetromino)
    modifies t`pos
    ensures t.pos == old(t.pos)
  {
    t.MoveRight();
    t.MoveLeft();
  }
}
