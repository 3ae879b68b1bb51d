/** The preset catalogue: each named preset fixes a work length, a short
    rest length and a long rest length, all in seconds. */
module Time {

  datatype TimeMode = Short | Medium | Long

  /** The three durations, in seconds, a preset resolves to. */
  datatype PomodoroTime = PomodoroTime(workTime: int, shortRestTime: int, longRestTime: int)

  /** Well-formed durations: every rest is positive, a short rest is shorter
      than a long one and a long rest is shorter than the work period. */
  predicate Ordered(c: PomodoroTime) {
    0 < c.shortRestTime < c.longRestTime < c.workTime
  }

  function GetConfig(m: TimeMode): (c: PomodoroTime)
    ensures Ordered(c)
  {
    match m
    case Short => PomodoroTime(25 * 60, 5 * 60, 15 * 60)
    case Medium => PomodoroTime(45 * 60, 10 * 60, 20 * 60)
    case Long => PomodoroTime(60 * 60, 15 * 60, 30 * 60)
  }

  /** The documented lengths of each preset, in seconds. */
  lemma PresetDurations()
    ensures GetConfig(Short) == PomodoroTime(1500, 300, 900)
    ensures GetConfig(Medium) == PomodoroTime(2700, 600, 1200)
    ensures GetConfig(Long) == PomodoroTime(3600, 900, 1800)
  {
  }
}
