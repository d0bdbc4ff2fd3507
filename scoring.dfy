/** Scoring and level progression (script.js `updateScore`). */
module Scoring {

  /** The score, the lines cleared so far, the level and the automatic drop
      interval in milliseconds. */
  datatype Tally = Tally(score: int, lines: int, level: int, dropInterval: int)

  /** `Math.max`. */
  function Max(a: int, b: int): int {
    if a >= b then a else b
  }

  /** Base award per number of lines cleared at once. */
  const LINE_SCORES: seq<int> := [0, 40, 100, 300, 1200]

  /** `lineScores[cleared] || 0`: counts outside the table award nothing. */
  function LineScore(cleared: int): int {
    if 0 <= cleared < |LINE_SCORES| then LINE_SCORES[cleared] else 0
  }

  /** The shortest automatic drop interval a level-up can bring. */
  const MIN_INTERVAL := 120

  /** What `updateScore(cleared)` does to the tally: the base award times
      (level + 1) is added to the score, the lines are added, and when
      floor(lines / 10) exceeds the level the level becomes it and the drop
      interval shrinks by 60 ms, but not below MIN_INTERVAL. */
  ghost function Scored(t: Tally, cleared: int): Tally {
    var lines := t.lines + cleared;
    var score := t.score + LineScore(cleared) * (t.level + 1);
    if lines / 10 > t.level then Tally(score, lines, lines / 10, Max(MIN_INTERVAL, t.dropInterval - 60))
    else Tally(score, lines, t.level, t.dropInterval)
  }

  /** The awards the standard table gives: one line at level 0 is 40 points,
      four lines at level 0 are 1200, one line at level 2 is 120. */
  lemma AwardExamples(t: Tally)
    ensures t.level == 0 ==> Scored(t, 1).score == t.score + 40
    ensures t.level == 0 ==> Scored(t, 4).score == t.score + 1200
    ensures t.level == 2 ==> Scored(t, 1).score == t.score + 120
    ensures Scored(t, 5).score == t.score && Scored(t, -1).score == t.score
  {
  }

  /** The level stays floor(lines / 10) when lines are added. */
  lemma LevelFollowsLines(t: Tally, cleared: int)
    requires 0 <= t.lines && t.level == t.lines / 10 && 0 <= cleared
    ensures Scored(t, cleared).level == Scored(t, cleared).lines / 10
    ensures Scored(t, cleared).level >= t.level
  {
  }

  /** Clearing at most four lines gains at most one level, so the fixed
      60 ms step is one step per level gained. */
  lemma OneLevelAtATime(t: Tally, cleared: int)
    requires 0 <= t.lines && t.level == t.lines / 10 && 0 <= cleared <= 4
    ensures Scored(t, cleared).level <= t.level + 1
  {
  }

  /** The drop interval never grows while it is at least MIN_INTERVAL, and it
      never falls below MIN_INTERVAL through a level-up. */
  lemma IntervalRamp(t: Tally, cleared: int)
    requires t.dropInterval >= MIN_INTERVAL
    ensures MIN_INTERVAL <= Scored(t, cleared).dropInterval <= t.dropInterval
    ensures Scored(t, cleared).level > t.level ==>
      Scored(t, cleared).dropInterval == Max(MIN_INTERVAL, t.dropInterval - 60)
  {
  }

  /** With the level in step with the lines, scoring zero lines changes
      nothing: skipping the call when nothing was cleared loses nothing. */
  lemma ZeroClearedNoop(t: Tally)
    requires t.level == t.lines / 10
    ensures Scored(t, 0) == t
  {
  }
}
