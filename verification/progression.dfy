/** Score, level and falling speed: every cleared row scores a fixed amount
    and counts towards the next level, and each level falls faster.
 */
module Progression {

  const InitialSpeed := 10
  const SpeedIncrease := 1
  const ScorePerRow := 100
  const RowsPerLevel := 40

  /** `rows` counts the rows cleared since the last level-up; `speed` is
      the frame rate the game loop is paced at. */
  datatype Progress = Progress(score: int, rows: int, level: int, speed: int)

  const Initial := Progress(0, 0, 1, InitialSpeed)

  /** The number of rows cleared since the game started, as the progress
      records it. */
  function Cleared(p: Progress): int
  {
    (p.level - 1) * RowsPerLevel + p.rows
  }

  /** The progress a game has after clearing n rows in all. */
  function AfterRows(n: nat): (p: Progress)
    ensures Cleared(p) == n
  {
    Progress(n * ScorePerRow, n % RowsPerLevel, 1 + n / RowsPerLevel,
             InitialSpeed + (n / RowsPerLevel) * SpeedIncrease)
  }

  /** Every reachable progress: the level counter below the threshold, the
      score paying for every row cleared, and the speed one step up per
      level gained. */
  predicate Valid(p: Progress)
  {
    && 0 <= p.rows < RowsPerLevel
    && p.level >= 1
    && p.score == ScorePerRow * Cleared(p)
    && p.speed == InitialSpeed + (p.level - 1) * SpeedIncrease
  }

  /** A valid progress is exactly the progress of its number of cleared rows,
      so it is determined by that number alone. */
  lemma {:induction false} ValidIsAfterRows(p: Progress)
    ensures Valid(p) <==> Cleared(p) >= 0 && p == AfterRows(Cleared(p))
  {
    if Valid(p) {
      var n := Cleared(p);
      assert n / RowsPerLevel == p.level - 1 && n % RowsPerLevel == p.rows;
    }
  }

  /** Credits one cleared row: the score goes up by one row's worth and the
      row counter by one, rolling over into the next level, one speed step
      faster, when it reaches the threshold. */
  function CreditRow(p: Progress): (r: Progress)
    ensures p.rows < RowsPerLevel ==> Cleared(r) == Cleared(p) + 1 && r.rows < RowsPerLevel
    ensures r.score == p.score + ScorePerRow
    ensures r.level == p.level || (r.level == p.level + 1 && r.rows == 0)
    ensures r.speed - r.level == p.speed - p.level
    ensures Valid(p) ==> Valid(r)
  {
    var q := p.(score := p.score + ScorePerRow, rows := p.rows + 1);
    if q.rows >= RowsPerLevel then
      q.(speed := q.speed + SpeedIncrease, rows := 0, level := q.level + 1)
    else
      q
  }

  /** Credits k cleared rows one at a time. */
  function CreditRows(p: Progress, k: nat): (r: Progress)
    ensures p.rows < RowsPerLevel ==> Cleared(r) == Cleared(p) + k
    ensures r.score == p.score + k * ScorePerRow
    ensures p.level <= r.level && p.speed <= r.speed
    ensures Valid(p) ==> Valid(r)
    decreases k
  {
    if k == 0 then p else CreditRows(CreditRow(p), k - 1)
  }

  /** From any valid progress, crediting k rows lands where clearing the
      combined number of rows from the start would. */
  lemma {:induction false} CreditRowsIsAfterRows(p: Progress, k: nat)
    requires Valid(p)
    ensures CreditRows(p, k) == AfterRows(Cleared(p) + k)
  {
    ValidIsAfterRows(p);
    ValidIsAfterRows(CreditRows(p, k));
  }

  lemma InitialIsValid()
    ensures Valid(Initial) && Initial == AfterRows(0)
  {
  }
}
