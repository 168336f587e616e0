/** The seven piece kinds, their rotation states and the shape table
    (consts.go). */
module Tetros {
  import opened Geometry

  /** A piece kind. The Go type is a plain int, so values outside I..L exist
      and are handled by the default branches below. */
  newtype Tetro = int

  const I: Tetro := 1
  const O: Tetro := 2
  const T: Tetro := 3
  const S: Tetro := 4
  const Z: Tetro := 5
  const J: Tetro := 6
  const L: Tetro := 7

  predicate IsKind(t: Tetro) { I <= t <= L }

  /** A rotation state, numbered from 1. Also a plain int in Go. */
  newtype Rotation = int

  const R1: Rotation := 1
  const R2: Rotation := 2
  const R3: Rotation := 3
  const R4: Rotation := 4

  /** `Tetro.String`, as written: the fallback is spelt "unkown". */
  function Name(t: Tetro): (s: string)
    ensures IsKind(t) ==> |s| == 1
    ensures !IsKind(t) ==> s == "unkown"
  {
    if t == I then "I"
    else if t == O then "O"
    else if t == T then "T"
    else if t == S then "S"
    else if t == Z then "Z"
    else if t == J then "J"
    else if t == L then "L"
    else "unkown"
  }

  /** The seven kinds have seven different names. */
  lemma NamesDistinct(t: Tetro, u: Tetro)
    requires IsKind(t) && IsKind(u) && t != u
    ensures Name(t) != Name(u)
  {
  }

  /** The test for `String` expects "unknown" for Tetro(42); the code gives
      another word. */
  lemma NameFallbackMisspelt()
    ensures Name(42) != "unknown"
  {
    assert |Name(42)| == 6 && |"unknown"| == 7;
  }

  /** `String` with the fallback the test expects. */
  function IntendedName(t: Tetro): (s: string)
    ensures IsKind(t) ==> s == Name(t)
    ensures !IsKind(t) ==> s == "unknown"
  {
    if IsKind(t) then Name(t) else "unknown"
  }

  /** The test vector of `Test_Tetro_String`, met by the intended name. */
  lemma IntendedNameMeetsTest()
    ensures IntendedName(I) == "I" && IntendedName(O) == "O" && IntendedName(T) == "T"
    ensures IntendedName(S) == "S" && IntendedName(Z) == "Z" && IntendedName(J) == "J"
    ensures IntendedName(L) == "L" && IntendedName(42) == "unknown"
  {
  }

  /** `RandTetro`: the random generator's draw `n` from [0, 7) is a parameter. */
  function RandTetro(n: int): (t: Tetro)
    requires 0 <= n < L as int
    ensures IsKind(t)
    ensures t as int - 1 == n
  {
    (n + 1) as Tetro
  }

  /** Every kind is drawn by exactly one value of the generator. */
  lemma RandTetroOnto(t: Tetro)
    requires IsKind(t)
    ensures exists n :: 0 <= n < L as int && RandTetro(n) == t
    ensures forall n :: 0 <= n < L as int && RandTetro(n) == t ==> n == t as int - 1
  {
    assert RandTetro(t as int - 1) == t;
  }

  /** Four offsets in grid units: distinct, within x in [0, 3] and y in
      [-3, 0], with at least one block on the anchor row y = 0. */
  predicate WellFormedState(s: seq<Vec>)
  {
    && |s| == 4
    && (forall i, j :: 0 <= i < j < |s| ==> s[i] != s[j])
    && (forall i :: 0 <= i < |s| ==> 0 <= s[i].x <= 3 && -3 <= s[i].y <= 0)
    && (exists i :: 0 <= i < |s| && s[i].y == 0)
  }

  /** The `positions` table: the rotation states of each kind, in order.
      A kind outside I..L has none (a missing key of the Go map). */
  function Shapes(t: Tetro): (r: seq<seq<Vec>>)
    ensures t == O ==> |r| == 1
    ensures t == I || t == S || t == Z ==> |r| == 2
    ensures t == T || t == J || t == L ==> |r| == 4
    ensures !IsKind(t) ==> r == []
  {
    if t == I then
      [[Vec(0, 0), Vec(0, -1), Vec(0, -2), Vec(0, -3)],
       [Vec(0, 0), Vec(1, 0), Vec(2, 0), Vec(3, 0)]]
    else if t == O then
      [[Vec(0, 0), Vec(0, -1), Vec(1, 0), Vec(1, -1)]]
    else if t == T then
      [[Vec(0, -1), Vec(1, 0), Vec(1, -1), Vec(2, -1)],
       [Vec(1, 0), Vec(0, -1), Vec(1, -1), Vec(1, -2)],
       [Vec(0, 0), Vec(1, 0), Vec(2, 0), Vec(1, -1)],
       [Vec(0, 0), Vec(0, -1), Vec(0, -2), Vec(1, -1)]]
    else if t == S then
      [[Vec(0, 0), Vec(1, 0), Vec(1, -1), Vec(2, -1)],
       [Vec(1, 0), Vec(0, -1), Vec(1, -1), Vec(0, -2)]]
    else if t == Z then
      [[Vec(0, -1), Vec(1, 0), Vec(2, 0), Vec(1, -1)],
       [Vec(0, 0), Vec(0, -1), Vec(1, -1), Vec(1, -2)]]
    else if t == J then
      [[Vec(0, 0), Vec(1, 0), Vec(1, -1), Vec(1, -2)],
       [Vec(0, 0), Vec(1, 0), Vec(2, 0), Vec(0, -1)],
       [Vec(0, 0), Vec(0, -1), Vec(0, -2), Vec(1, -2)],
       [Vec(0, -1), Vec(1, -1), Vec(2, -1), Vec(2, 0)]]
    else if t == L then
      [[Vec(0, 0), Vec(0, -1), Vec(0, -2), Vec(1, 0)],
       [Vec(0, 0), Vec(0, -1), Vec(1, -1), Vec(2, -1)],
       [Vec(1, 0), Vec(1, -1), Vec(1, -2), Vec(0, -2)],
       [Vec(0, 0), Vec(1, 0), Vec(2, 0), Vec(2, -1)]]
    else []
  }

  /** Every state of the table is well formed. */
  lemma ShapesWellFormed(t: Tetro, k: int)
    requires 0 <= k < |Shapes(t)|
    ensures WellFormedState(Shapes(t)[k])
  {
    var ss := Shapes(t);
    if t == I || t == O || t == S || t == Z {
      FewStatesFour();
    } else {
      FourStatesFour();
    }
    FourWellFormed(ss[k]);
  }

  /** The states of the kinds with one or two of them, offset by offset. */
  lemma FewStatesFour()
    ensures Four(Shapes(I)[0]) && Four(Shapes(I)[1]) && Four(Shapes(O)[0])
    ensures Four(Shapes(S)[0]) && Four(Shapes(S)[1]) && Four(Shapes(Z)[0]) && Four(Shapes(Z)[1])
  {
  }

  /** The states of the kinds with four of them, offset by offset. */
  lemma FourStatesFour()
    ensures forall k :: 0 <= k < 4 ==> Four(Shapes(T)[k]) && Four(Shapes(J)[k]) && Four(Shapes(L)[k])
  {
    assert Four(Shapes(T)[0]) && Four(Shapes(T)[1]) && Four(Shapes(T)[2]) && Four(Shapes(T)[3]);
    assert Four(Shapes(J)[0]) && Four(Shapes(J)[1]) && Four(Shapes(J)[2]) && Four(Shapes(J)[3]);
  }

  /** `WellFormedState` of a four-offset state, written out position by position. */
  predicate Four(s: seq<Vec>)
  {
    && |s| == 4
    && s[0] != s[1] && s[0] != s[2] && s[0] != s[3] && s[1] != s[2] && s[1] != s[3] && s[2] != s[3]
    && 0 <= s[0].x <= 3 && -3 <= s[0].y <= 0 && 0 <= s[1].x <= 3 && -3 <= s[1].y <= 0
    && 0 <= s[2].x <= 3 && -3 <= s[2].y <= 0 && 0 <= s[3].x <= 3 && -3 <= s[3].y <= 0
    && (s[0].y == 0 || s[1].y == 0 || s[2].y == 0 || s[3].y == 0)
  }

  lemma FourWellFormed(s: seq<Vec>)
    requires Four(s)
    ensures WellFormedState(s)
  {
    if s[0].y == 0 {
    } else if s[1].y == 0 {
    } else if s[2].y == 0 {
    } else {
      assert s[3].y == 0;
    }
  }

  /** A rotation that indexes the kind's states (`positions[t][rot-1]`). */
  predicate HasState(t: Tetro, rot: Rotation)
  {
    1 <= rot as int <= |Shapes(t)|
  }

  /** `Rotation.Inc`: the next state, wrapping after the kind's last one.
      Go's `%` keeps the sign of its left operand; a kind without states
      divides by zero, hence the precondition. */
  function Inc(r: Rotation, t: Tetro): (n: Rotation)
    requires IsKind(t)
    ensures r >= 0 ==> HasState(t, n)
    ensures HasState(t, r) && r as int < |Shapes(t)| ==> n == r + 1
    ensures HasState(t, r) && r as int == |Shapes(t)| ==> n == R1
  {
    var length := |Shapes(t)|;
    var curr := r as int - 1;
    var next := TruncRem(curr + 1, length);
    (next + 1) as Rotation
  }

  /** A negative rotation is not brought back into range. */
  lemma IncOfNegative()
    ensures Inc(-1, J) == 0 && !HasState(J, 0)
  {
  }

  /** The only state of O maps to itself, and so does every other start,
      negative ones included: Go's `x % 1` is 0 whatever the sign of x. */
  lemma IncOnO(r: Rotation)
    ensures Inc(r, O) == R1
  {
  }

  /** `k` applications of Inc. */
  function IncN(r: Rotation, t: Tetro, k: nat): Rotation
    requires IsKind(t)
  {
    if k == 0 then r else Inc(IncN(r, t, k - 1), t)
  }

  /** One step of Inc on a valid state, as arithmetic modulo the state count. */
  lemma IncStep(p: Rotation, t: Tetro)
    requires IsKind(t) && HasState(t, p)
    ensures Inc(p, t) as int == p as int % |Shapes(t)| + 1
  {
  }

  /** Every kind has one, two or four states. */
  lemma StateCount(t: Tetro)
    requires IsKind(t)
    ensures |Shapes(t)| == 1 || |Shapes(t)| == 2 || |Shapes(t)| == 4
  {
  }

  /** A state index is its own remainder. */
  lemma ModSmall(x: int, n: int)
    requires 0 <= x < n && (n == 1 || n == 2 || n == 4)
    ensures x % n == x
  {
    if n == 1 {
    } else if n == 2 {
    } else {
    }
  }

  /** One more step modulo n: if p is the state after x steps, the state
      after p is the one after x + 1 steps. */
  lemma ModStep(x: int, p: int, n: int)
    requires x >= 0 && (n == 1 || n == 2 || n == 4) && p == x % n + 1
    ensures p % n + 1 == (x + 1) % n + 1
  {
    if n == 1 {
      assert p % 1 == 0 && (x + 1) % 1 == 0;
    } else if n == 2 {
      ModStep2(x);
    } else {
      ModStep4(x);
    }
  }

  lemma ModStep2(x: int)
    requires x >= 0
    ensures (x % 2 + 1) % 2 == (x + 1) % 2
  {
  }

  lemma ModStep4(x: int)
    requires x >= 0
    ensures (x % 4 + 1) % 4 == (x + 1) % 4
  {
  }

  /** From a valid state, k steps land k states further on, modulo the count. */
  lemma {:induction false} IncNFormula(r: Rotation, t: Tetro, k: nat)
    requires IsKind(t) && HasState(t, r)
    ensures HasState(t, IncN(r, t, k))
    ensures IncN(r, t, k) as int == (r as int - 1 + k) % |Shapes(t)| + 1
  {
    StateCount(t);
    if k == 0 {
      ModSmall(r as int - 1, |Shapes(t)|);
    } else {
      IncNFormula(r, t, k - 1);
      var p := IncN(r, t, k - 1);
      IncStep(p, t);
      ModStep(r as int - 1 + k - 1, p as int, |Shapes(t)|);
    }
  }

  /** Rotating as many times as the kind has states returns to the start. */
  lemma IncCycle(r: Rotation, t: Tetro)
    requires IsKind(t) && HasState(t, r)
    ensures IncN(r, t, |Shapes(t)|) == r
  {
    IncNFormula(r, t, |Shapes(t)|);
    WrapAround(r as int - 1, |Shapes(t)|);
  }

  lemma WrapAround(a: int, n: int)
    requires (n == 1 || n == 2 || n == 4) && 0 <= a < n
    ensures (a + n) % n == a
  {
  }

  /** The cycle of `Test_Rotation`. */
  lemma JCycle()
    ensures Inc(R1, J) == R2 && Inc(R2, J) == R3 && Inc(R3, J) == R4 && Inc(R4, J) == R1
  {
  }

  /** `positions[t][rot-1]`: the four offsets of a state. */
  function Blocks(t: Tetro, rot: Rotation): (b: seq<Vec>)
    requires HasState(t, rot)
    ensures WellFormedState(b)
  {
    ShapesWellFormed(t, rot as int - 1);
    Shapes(t)[rot - 1]
  }

  /** A valid rotation only exists for the seven kinds. */
  lemma HasStateOnlyForKinds(t: Tetro, rot: Rotation)
    requires HasState(t, rot)
    ensures IsKind(t)
  {
  }
}
