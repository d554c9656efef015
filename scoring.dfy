/** The level and speed policy applied by arenaSweep after rows are cleared. */
module Scoring {

  const LINES_PER_LEVEL := 10
  const MAX_LEVEL := 1000

  /** The level a line total earns: a tenth of the lines, rounded down, plus one, capped at MAX_LEVEL. */
  function LevelFor(lines: nat): (level: int)
    ensures 1 <= level <= MAX_LEVEL
    ensures level < MAX_LEVEL ==> (level - 1) * LINES_PER_LEVEL <= lines < level * LINES_PER_LEVEL
    ensures level == MAX_LEVEL ==> (MAX_LEVEL - 1) * LINES_PER_LEVEL <= lines
  {
    var earned := lines / LINES_PER_LEVEL + 1;
    if earned < MAX_LEVEL then earned else MAX_LEVEL
  }

  /** The gravity period, in milliseconds, set on reaching a level: 5 ms faster per level,
      never below 100 ms. */
  function DropInterval(level: int): (ms: int)
    requires level >= 1
    ensures 100 <= ms <= 1000
    ensures ms == 1000 <==> level == 1
    ensures ms > 100 ==> ms == 1000 - 5 * (level - 1)
    ensures ms >= 1000 - 5 * (level - 1)
  {
    var linear := 1000 - (level - 1) * 5;
    if linear > 100 then linear else 100
  }

  /** More lines never earn a lower level. */
  lemma LevelForMonotone(lines: nat, more: nat)
    requires lines <= more
    ensures LevelFor(lines) <= LevelFor(more)
  {
  }

  /** A higher level never falls more slowly. */
  lemma DropIntervalMonotone(level: int, higher: int)
    requires 1 <= level <= higher
    ensures DropInterval(higher) <= DropInterval(level)
  {
  }

  /** arenaSweep's rule "take the level the new line total earns if it is higher" keeps the
      level equal to the level earned by the lines. */
  lemma LevelUpRule(lines: nat, n: nat, level: int)
    requires level == LevelFor(lines)
    ensures (if LevelFor(lines + n) > level then LevelFor(lines + n) else level) == LevelFor(lines + n)
  {
    LevelForMonotone(lines, lines + n);
  }
}
