/** The due-today check of a habit (`Habit.should_execute_today` in
    habits/models.py), with instants in whole UTC seconds and the clock
    reading passed in as `now`. */
module Schedule {
  import opened Models

  /** Whole days from `anchor` to `now`, rounded toward minus infinity as
      `timedelta.days` does. */
  function DaysPassed(now: Instant, anchor: Instant): (days: int)
    ensures days * SecondsPerDay <= now - anchor < (days + 1) * SecondsPerDay
  {
    (now - anchor) / SecondsPerDay
  }

  /** The UTC calendar date of an instant, as a day number. */
  function DateOf(t: Instant): (day: int)
    ensures day * SecondsPerDay <= t < (day + 1) * SecondsPerDay
  {
    t / SecondsPerDay
  }

  /** The habit is due on `now`'s date: a whole number of cycles of
      `frequency` days separates `now` from the anchor, and the anchor's date
      has been reached. A zero frequency has no defined answer. */
  function ShouldExecuteToday(h: Habit, now: Instant): (due: bool)
    requires h.frequency > 0
    ensures DateOf(h.executionTime) > DateOf(now) ==> !due
    ensures h.frequency == 1 ==> (due <==> DateOf(h.executionTime) <= DateOf(now))
  {
    DaysPassed(now, h.executionTime) % h.frequency == 0 && DateOf(h.executionTime) <= DateOf(now)
  }

  lemma FloorDivUnique(x: int, q: int)
    requires q * SecondsPerDay <= x < (q + 1) * SecondsPerDay
    ensures x / SecondsPerDay == q
  {
  }

  lemma {:induction false} MulAtLeast(k: int, f: int)
    requires k >= 1 && f > 0
    ensures k * f >= f
  {
    if k > 1 {
      MulAtLeast(k - 1, f);
      assert k * f == (k - 1) * f + f;
    }
  }

  /** Euclidean division by a positive divisor has a unique quotient and remainder. */
  lemma DivModUnique(x: int, f: int, q: int, r: int)
    requires f > 0 && 0 <= r < f && x == q * f + r
    ensures x / f == q && x % f == r
  {
    var q0 := x / f;
    var r0 := x % f;
    assert (q - q0) * f == q * f - q0 * f;
    assert (q - q0) * f == r0 - r;
    if q - q0 >= 1 {
      MulAtLeast(q - q0, f);
    } else if q0 - q >= 1 {
      MulAtLeast(q0 - q, f);
    }
  }

  lemma MultipleModulo(m: int, f: int)
    requires f > 0
    ensures (m * f) % f == 0
  {
    DivModUnique(m * f, f, m, 0);
  }

  lemma ShiftModulo(x: int, f: int)
    requires f > 0
    ensures (x + f) % f == x % f
  {
    var q := x / f;
    assert x + f == (q + 1) * f + x % f;
    DivModUnique(x + f, f, q + 1, x % f);
  }

  /** Reference reading of the check: `now` falls in the first day of the
      `m`-th cycle of `frequency` days counted from the anchor. */
  ghost predicate InCycleStartDay(h: Habit, now: Instant, m: int)
  {
    m * h.frequency * SecondsPerDay <= now - h.executionTime < (m * h.frequency + 1) * SecondsPerDay
  }

  /** A habit is due exactly when `now` lies in the first day of some cycle
      and the anchor's date has been reached; this direction: such a day is due. */
  lemma DueOnCycleStartDay(h: Habit, now: Instant, m: int)
    requires h.frequency > 0
    requires InCycleStartDay(h, now, m)
    requires DateOf(h.executionTime) <= DateOf(now)
    ensures ShouldExecuteToday(h, now)
  {
    FloorDivUnique(now - h.executionTime, m * h.frequency);
    MultipleModulo(m, h.frequency);
  }

  /** The other direction: when the habit is due, `now` lies in the first day
      of cycle number `DaysPassed / frequency`. */
  lemma DueOnlyOnCycleStartDay(h: Habit, now: Instant)
    requires h.frequency > 0
    requires ShouldExecuteToday(h, now)
    ensures DateOf(h.executionTime) <= DateOf(now)
    ensures InCycleStartDay(h, now, DaysPassed(now, h.executionTime) / h.frequency)
  {
    var d := DaysPassed(now, h.executionTime);
    var m := d / h.frequency;
    assert d == m * h.frequency + d % h.frequency;
  }

  /** Once the anchor's date is reached, the answer repeats every `frequency` days. */
  lemma DueIsPeriodic(h: Habit, now: Instant)
    requires h.frequency > 0
    requires DateOf(h.executionTime) <= DateOf(now)
    ensures ShouldExecuteToday(h, now + h.frequency * SecondsPerDay) == ShouldExecuteToday(h, now)
  {
    var f := h.frequency;
    var d := DaysPassed(now, h.executionTime);
    FloorDivUnique(now + f * SecondsPerDay - h.executionTime, d + f);
    FloorDivUnique(now + f * SecondsPerDay, DateOf(now) + f);
    ShiftModulo(d, f);
  }

  /** An anchor later than `now` but at most a day ahead is one day short of
      `now` in whole days: only a daily habit anchored on today's date is due. */
  lemma DueWithinNextDay(h: Habit, now: Instant)
    requires h.frequency > 0
    requires now < h.executionTime <= now + SecondsPerDay
    ensures ShouldExecuteToday(h, now) <==> h.frequency == 1 && DateOf(h.executionTime) == DateOf(now)
  {
    FloorDivUnique(now - h.executionTime, -1);
    assert DaysPassed(now, h.executionTime) == -1;
    if h.frequency > 1 {
      assert -1 == -1 * h.frequency + (h.frequency - 1);
      assert (-1) % h.frequency == h.frequency - 1;
    }
  }

  /** At the anchor instant itself every positive frequency is due. */
  lemma DueAtAnchor(h: Habit)
    requires h.frequency > 0
    ensures ShouldExecuteToday(h, h.executionTime)
  {
  }

  /** Within the first day after the anchor (on any date), no whole day has
      passed and every positive frequency is due. */
  lemma DueOnFirstDayAfterAnchor(h: Habit, now: Instant)
    requires h.frequency > 0
    requires h.executionTime <= now < h.executionTime + SecondsPerDay
    ensures ShouldExecuteToday(h, now)
  {
    FloorDivUnique(now - h.executionTime, 0);
  }

  /** Ten days after the anchor a five-day habit is due and a three-day habit is not. */
  lemma TenDaysAfterAnchor(h: Habit, now: Instant)
    requires h.executionTime == now - 10 * SecondsPerDay
    ensures h.frequency == 5 ==> ShouldExecuteToday(h, now)
    ensures h.frequency == 3 ==> !ShouldExecuteToday(h, now)
  {
    FloorDivUnique(now - h.executionTime, 10);
    assert DateOf(h.executionTime) <= DateOf(now);
  }
}
