/**
 Score, level and the fall speed derived from the level. Every cleared row
 is worth 100 points; the level is bumped whenever the score, right after a
 row is added, is an exact multiple of 300.
 */
module Scoring {

  const RowPoints: int := 100
  const PointsPerLevel: int := 300
  const BaseSpeed: int := 700
  const SpeedStep: int := 100
  const MinInterval: int := 100

  datatype Progress = Progress(score: int, level: int)

  /** Score and level at the start of a game. */
  const Fresh: Progress := Progress(0, 1)

  /** The relation between score and level that every reachable state keeps. */
  predicate Consistent(p: Progress) {
    p.score >= 0 && p.score % RowPoints == 0 && p.level == 1 + p.score / PointsPerLevel
  }

  /** Bookkeeping for one cleared row: 100 more points, then the exact-multiple level check. */
  function AddRow(p: Progress): (r: Progress)
    ensures r.score == p.score + RowPoints
    ensures r.level == p.level || r.level == p.level + 1
  {
    Progress(p.score + RowPoints,
             if (p.score + RowPoints) % PointsPerLevel == 0 then p.level + 1 else p.level)
  }

  /** One row keeps the score a multiple of 100 and the level at `1 + score / 300`. */
  lemma AddRowKeepsConsistent(p: Progress)
    requires Consistent(p)
    ensures Consistent(AddRow(p))
  {
    // the score is 300 q + 100 t with t in 0..2; the level goes up exactly when t == 2
    var q, a := p.score / PointsPerLevel, p.score / RowPoints;
    var t := a - 3 * q;
    assert p.score == RowPoints * a;
    assert 0 <= t < 3;
    if t == 2 {
      assert (p.score + RowPoints) / PointsPerLevel == q + 1;
      assert (p.score + RowPoints) % PointsPerLevel == 0;
    } else {
      assert (p.score + RowPoints) / PointsPerLevel == q;
      assert (p.score + RowPoints) % PointsPerLevel != 0;
    }
    assert (p.score + RowPoints) % RowPoints == 0;
  }

  /** `n` cleared rows, booked one at a time. */
  function AddRows(p: Progress, n: nat): (r: Progress)
    ensures r.score == p.score + RowPoints * n
    ensures p.level <= r.level <= p.level + n
    decreases n
  {
    if n == 0 then p else AddRows(AddRow(p), n - 1)
  }

  /** Any number of rows keeps the score/level relation. */
  lemma {:induction false} AddRowsKeepsConsistent(p: Progress, n: nat)
    requires Consistent(p)
    ensures Consistent(AddRows(p, n))
    decreases n
  {
    if n > 0 {
      AddRowKeepsConsistent(p);
      AddRowsKeepsConsistent(AddRow(p), n - 1);
    }
  }

  /** From 200 points at level 1, one row reaches level 2; the next row does not level up again. */
  lemma LevelUpAtMultiple()
    ensures AddRow(Progress(200, 1)) == Progress(300, 2)
    ensures AddRow(Progress(300, 2)) == Progress(400, 2)
  {
  }

  /**
   Milliseconds between automatic downward steps at `level`:
   700 at level 1, 100 less per level, and 100 from level 7 on.
   */
  function Speed(level: int): (ms: int)
    ensures ms >= MinInterval
    ensures level >= 1 ==> ms <= BaseSpeed
    ensures level < 7 ==> ms == BaseSpeed - (level - 1) * SpeedStep
    ensures level >= 7 ==> ms == MinInterval
  {
    var interval := BaseSpeed - (level - 1) * SpeedStep;
    if interval > MinInterval then interval else MinInterval
  }

  /** A higher level never means slower falling. */
  lemma SpeedNonIncreasing(a: int, b: int)
    requires a <= b
    ensures Speed(b) <= Speed(a)
  {
  }

  /** Until the floor is reached, each level is strictly faster than the one before. */
  lemma SpeedStrictUntilFloor(a: int, b: int)
    requires a < b && Speed(b) > MinInterval
    ensures Speed(b) < Speed(a)
  {
  }
}
