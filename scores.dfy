/** The score board shown beside the field (score_board.go). */
module Scores {
  import opened Geometry

  /** Points, cleared lines and level, as plain Go ints. */
  datatype ScoreBoard = ScoreBoard(score: int, lines: int, level: int) {

    /** `Add`: `n` cleared lines score `level` points each; the new level is
        one more than the tens of the new score, with Go's truncating `/`. */
    function Add(n: int): (r: ScoreBoard)
      ensures r.score - score == level * n && r.lines - lines == n
      ensures r.score >= 0 ==> (r.level - 1) * 10 <= r.score < r.level * 10
      ensures r.score < 0 ==> r.level * 10 - 10 >= r.score > r.level * 10 - 20
    {
      var s := score + level * n;
      ScoreBoard(s, lines + n, TruncDiv(s, 10) + 1)
    }

    /** `Velocity`: the falling speed of the level, straight down. */
    function Velocity(): (v: Vec)
      ensures v.x == 0
      ensures level >= 0 ==> v.y >= 5
    {
      Vec(0, 5 * (level + 1))
    }

    /** The level the board's score calls for. */
    predicate Consistent()
    {
      level == TruncDiv(score, 10) + 1
    }
  }

  /** The cases of `TestScoreBoard`. */
  lemma AddVectors()
    ensures ScoreBoard(0, 0, 1).Add(1) == ScoreBoard(1, 1, 1)
    ensures ScoreBoard(9, 9, 1).Add(1) == ScoreBoard(10, 10, 2)
    ensures ScoreBoard(27, 27, 3).Add(2) == ScoreBoard(33, 29, 4)
    ensures ScoreBoard(28, 21, 3).Add(4) == ScoreBoard(40, 25, 5)
  {
  }

  /** With a non-negative count and level, score and lines never drop, and
      a non-negative score has a level of at least 1. */
  lemma AddMonotone(s: ScoreBoard, n: int)
    requires n >= 0 && s.level >= 0
    ensures s.Add(n).score >= s.score && s.Add(n).lines >= s.lines
    ensures s.Add(n).score >= 0 ==> s.Add(n).level >= 1
  {
  }

  /** Adding no lines keeps score and lines and recomputes the level. */
  lemma AddZero(s: ScoreBoard)
    ensures s.Add(0).score == s.score && s.Add(0).lines == s.lines
    ensures s.Add(0).Consistent()
    ensures s.Consistent() ==> s.Add(0) == s
  {
  }

  /** The new level depends on the new score only, and every result is consistent. */
  lemma LevelFromScore(a: ScoreBoard, n: int, b: ScoreBoard, m: int)
    requires a.Add(n).score == b.Add(m).score
    ensures a.Add(n).level == b.Add(m).level
    ensures a.Add(n).Consistent()
  {
  }

  /** From a consistent board, scoring lines never lowers the level. */
  lemma LevelNeverDrops(s: ScoreBoard, n: int)
    requires s.Consistent() && s.score >= 0 && n >= 0
    ensures s.Add(n).level >= s.level
  {
  }

  /** Velocity is vertical and strictly faster at a higher level. */
  lemma VelocityIncreases(a: ScoreBoard, b: ScoreBoard)
    requires a.level < b.level
    ensures a.Velocity().x == 0 && b.Velocity().x == 0
    ensures a.Velocity().y < b.Velocity().y
  {
  }
}
