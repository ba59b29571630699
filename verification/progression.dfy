/**
  Score, level and drop interval (the milliseconds between gravity steps).
  They change only when a line clear removes at least one row.
 */
module Progression {

  const InitialInterval := 1000
  const MinInterval := 100
  const IntervalStep := 100
  const LineScore := 100

  datatype Progress = Progress(score: nat, level: nat, dropInterval: int)

  /** Counters of a freshly reset game. */
  const Initial := Progress(0, 1, InitialInterval)

  function Max(a: int, b: int): int {
    if a >= b then a else b
  }

  /** One level up: the level advances and the interval shrinks by a step, never below the floor. */
  function LevelUp(p: Progress): (r: Progress)
    ensures r.score == p.score && r.level == p.level + 1
    ensures r.dropInterval >= MinInterval
    ensures p.dropInterval > MinInterval ==> r.dropInterval < p.dropInterval
    ensures r.dropInterval <= Max(p.dropInterval, MinInterval)
  {
    p.(level := p.level + 1, dropInterval := Max(MinInterval, p.dropInterval - IntervalStep))
  }

  /** Adds the score of one removed line per cleared line, as the removal loop does. */
  function AddLineScores(score: nat, lines: nat): (r: nat)
    ensures r == score + LineScore * lines
    decreases lines
  {
    if lines == 0 then score else AddLineScores(score + LineScore, lines - 1)
  }

  /** The counters after a line clear that removed `lines` rows. */
  function OnLinesCleared(p: Progress, lines: nat): (r: Progress)
    ensures r.score == p.score + LineScore * lines
    ensures r.level == p.level + (if lines > 0 then 1 else 0)
    ensures lines == 0 ==> r == p
    ensures lines > 0 ==> r.dropInterval == Max(MinInterval, p.dropInterval - IntervalStep)
  {
    var scored := p.(score := AddLineScores(p.score, lines));
    if lines > 0 then LevelUp(scored) else scored
  }

  /** The range the counters stay in from a reset on: interval a multiple of 100 within [100, 1000]. */
  predicate WellFormed(p: Progress) {
    && p.level >= 1
    && MinInterval <= p.dropInterval <= InitialInterval
    && p.dropInterval % IntervalStep == 0
  }

  lemma InitialWellFormed()
    ensures WellFormed(Initial)
  {
  }

  /** A line clear keeps the counters well formed and never lowers score or level or raises the interval. */
  lemma OnLinesClearedPreserves(p: Progress, lines: nat)
    requires WellFormed(p)
    ensures var r := OnLinesCleared(p, lines);
      && WellFormed(r)
      && r.score >= p.score
      && r.level >= p.level
      && r.dropInterval <= p.dropInterval
  {
  }

  /** The counters after `n` successive clears, each removing at least one row. */
  function LevelUps(p: Progress, n: nat, lines: nat): Progress
    requires lines > 0
  {
    if n == 0 then p else OnLinesCleared(LevelUps(p, n - 1, lines), lines)
  }

  /**
    After `n` clear events starting from a reset, the level is 1 + n and the
    interval is max(100, 1000 - 100 n): it bottoms out at the floor and never
    goes below it.
   */
  lemma {:induction false} IntervalAfterLevelUps(n: nat, lines: nat)
    requires lines > 0
    ensures LevelUps(Initial, n, lines).level == 1 + n
    ensures LevelUps(Initial, n, lines).dropInterval == Max(MinInterval, InitialInterval - IntervalStep * n)
    ensures LevelUps(Initial, n, lines).score == LineScore * lines * n
  {
    if n > 0 {
      IntervalAfterLevelUps(n - 1, lines);
    }
  }
}
