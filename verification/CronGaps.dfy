/** Inputs on which the promises of the timer heap fail: where waking late and noticing a jump part, and
    where a search that looks six years ahead overlooks a fire. */
module CronGaps {
  import opened Wrappers
  import opened CronField
  import opened CronSchedule
  import opened CronHeap
  import opened CronZones
  import opened CronRuns

  // ---- inputs on which the two paths part --------------------------------

  /** `* * * * *` */
  function EveryMinute(): CronExpr {
    CronExpr(Everything(0, 60), Everything(0, 24), Everything(1, 31), Everything(1, 12), Everything(0, 7))
  }

  lemma EveryMinuteFires(calendar: int -> Date, m: int)
    requires 1 <= calendar(0).month <= 12 && 0 <= m < 60
    ensures IsFire(EveryMinute(), FixedOffset(calendar, 0, 1000), m * MINUTE)
  {
    assert FiresAt(EveryMinute(), FixedOffset(calendar, 0, 1000), 0, 0, m, m * MINUTE);
  }

  lemma NextMinute(calendar: int -> Date)
    requires 1 <= calendar(0).month <= 12
    ensures NextAfter(EveryMinute(), FixedOffset(calendar, 0, 1000), 0) == Some(MINUTE)
  {
    var z := FixedOffset(calendar, 0, 1000);
    FixedOffsetIsAligned(calendar, 0, 1000);
    EveryMinuteFires(calendar, 1);
    DayOf(MINUTE, 0);
    NextWithinMinute(EveryMinute(), z, 0, MINUTE);
  }

  /** An order without a catch-up window, due on time, is declared by a wake and not by a jump. */
  lemma ZeroWindowParts(calendar: int -> Date, name: string)
    requires 1 <= calendar(0).month <= 12
    ensures var o, z := Order(name, Cron(EveryMinute()), 0), FixedOffset(calendar, 0, 1000);
            && NextAfter(EveryMinute(), z, 0) == Some(MINUTE)
            && DueFire(o, z, MINUTE, MINUTE) == Some(Fire(name, MINUTE, false))
            && JumpFire(o, z, MINUTE, 0) == None
  {
    NextMinute(calendar);
  }

  /** An every-minute order woken exactly a minute late: a wake declares the deadline, a jump the
      fire of this instant. */
  lemma ExactMinuteParts(calendar: int -> Date, name: string)
    requires 1 <= calendar(0).month <= 12
    ensures var o, z := Order(name, Cron(EveryMinute()), HOUR), FixedOffset(calendar, 0, 1000);
            && NextAfter(EveryMinute(), z, 0) == Some(MINUTE)
            && DueFire(o, z, MINUTE, 2 * MINUTE) == Some(Fire(name, MINUTE, false))
            && JumpFire(o, z, 2 * MINUTE, 0) == Some(Fire(name, 2 * MINUTE, false))
  {
    var z := FixedOffset(calendar, 0, 1000);
    NextMinute(calendar);
    FixedOffsetIsAligned(calendar, 0, 1000);
    EveryMinuteFires(calendar, 2);
    DayOf(2 * MINUTE, 0);
    JumpPicksOnTime(EveryMinute(), z, HOUR, 2 * MINUTE, 0, MINUTE);
  }

  // ---- a calendar with such a gap ----------------------------------------

  function Single(min: nat, size: nat, v: int): FieldSet {
    FieldSet(min, seq(size, i => min + i == v), true)
  }

  /** `0 0 29 2 *` */
  function LeapDay(): CronExpr {
    CronExpr(Single(0, 60, 0), Single(0, 24, 0), Single(1, 31, 29), Single(1, 12, 2), Everything(0, 7))
  }

  predicate IsLeapDay(date: Date) {
    date.month == 2 && date.day == 29
  }

  /** Day 0 and day 2921 are leap days and no day between them is, as 2096-02-29 and 2104-02-29. */
  ghost predicate CenturyGap(calendar: int -> Date) {
    && IsLeapDay(calendar(0)) && IsLeapDay(calendar(2921))
    && forall d :: 0 < d < 2921 ==> !IsLeapDay(calendar(d))
  }

  lemma LeapDayMatches(date: Date)
    ensures DayMatches(LeapDay(), date) <==> IsLeapDay(date)
  {
  }

  lemma LeapDayFires(calendar: int -> Date, d: int)
    requires IsLeapDay(calendar(d)) && d <= 5000
    ensures IsFire(LeapDay(), FixedOffset(calendar, 0, 5000), d * DAY)
  {
    LeapDayMatches(calendar(d));
    assert FiresAt(LeapDay(), FixedOffset(calendar, 0, 5000), d, 0, 0, d * DAY);
  }

  /** From any instant of the day of the first leap day, or of the next, the second is out of sight. */
  lemma CenturyGapIsWide(calendar: int -> Date, now: int)
    requires CenturyGap(calendar) && 0 <= now < 2 * DAY
    ensures NothingAhead(LeapDay(), FixedOffset(calendar, 0, 5000), now)
  {
    var z := FixedOffset(calendar, 0, 5000);
    DayOf(now, 0);
    DayOf(now, 1);
    forall c, h, m
      ensures !FireInDays(LeapDay(), z, now, z.dateOf(now), SEARCH_HORIZON_DAYS, c, h, m)
    {
      LeapDayMatches(calendar(c));
      if c == 0 && Matches(LeapDay(), z, c, h, m) {
        assert h == 0 && m == 0;
      }
    }
  }

  /** Last seen the day after the first leap day, and woken the day after the second: the scan gives up
      before it, and the fire within the window is overlooked. */
  lemma ScanOverlooksLeapDay(calendar: int -> Date)
    requires CenturyGap(calendar)
    ensures var e, z, window, now := LeapDay(), FixedOffset(calendar, 0, 5000), 100000 * HOUR, 2922 * DAY;
            && MostRecentMissed(e, z, window, now, DAY) == None
            && Missed(e, z, window, now, DAY, 2921 * DAY)
            && Overlooked(e, z, window, now, DAY, DAY, 2921 * DAY)
  {
    var e, z, window, now := LeapDay(), FixedOffset(calendar, 0, 5000), 100000 * HOUR, 2922 * DAY;
    FixedOffsetIsAligned(calendar, 0, 5000);
    CenturyGapIsWide(calendar, DAY);
    LeapDayFires(calendar, 2921);
    DayOf(DAY, 1);
    SearchGivesUp(e, z, DAY);
    assert ScanStart(window, now, DAY) == DAY;
  }

  lemma LeapDayNext(calendar: int -> Date, seen: int, t: int)
    requires CenturyGap(calendar) && t == 0 && t - MINUTE <= seen < t
    ensures NextAfter(LeapDay(), FixedOffset(calendar, 0, 5000), seen) == Some(t)
  {
    var z := FixedOffset(calendar, 0, 5000);
    FixedOffsetIsAligned(calendar, 0, 5000);
    LeapDayFires(calendar, 0);
    DayOf(t, 0);
    NextWithinMinute(LeapDay(), z, seen, t);
  }

  lemma LeapDayArmed(calendar: int -> Date, orders: seq<Order>, name: string, seen: int)
    requires CenturyGap(calendar) && orders == [Order(name, Cron(LeapDay()), HOUR)] && -MINUTE <= seen < 0
    ensures InStep(map[0 := 0], orders, FixedOffset(calendar, 0, 5000), seen)
  {
    LeapDayNext(calendar, seen, 0);
    assert OrderInStep(map[0 := 0], orders, FixedOffset(calendar, 0, 5000), seen, 0);
  }

  lemma LeapDayGoesQuiet(calendar: int -> Date, orders: seq<Order>, name: string, w: Wake)
    requires CenturyGap(calendar) && orders == [Order(name, Cron(LeapDay()), HOUR)] && w == Wake(0, false)
    ensures ValidEntries(map[0 := 0], orders)
    ensures AfterWake(map[0 := 0], orders, FixedOffset(calendar, 0, 5000), w) == map[]
  {
    var z := FixedOffset(calendar, 0, 5000);
    FixedOffsetIsAligned(calendar, 0, 5000);
    LeapDayArmed(calendar, orders, name, -1);
    CenturyGapIsWide(calendar, 0);
    DayOf(0, 0);
    GoneQuiet(map[0 := 0], orders, z, -1, w, 0);
  }

  lemma EmptyHeapIsPrompt(orders: seq<Order>, z: Zone, w: Wake)
    requires !w.jump
    ensures AllPrompt(map[], orders, z, [w])
  {
    assert [w][1..] == [];
  }

  lemma LeapRunIsPrompt(calendar: int -> Date, orders: seq<Order>, name: string, wakes: seq<Wake>)
    requires CenturyGap(calendar) && orders == [Order(name, Cron(LeapDay()), HOUR)]
    requires wakes == [Wake(0, false), Wake(2921 * DAY, false)]
    ensures var z := FixedOffset(calendar, 0, 5000);
            && InStep(map[0 := 0], orders, z, -1)
            && AllPrompt(map[0 := 0], orders, z, wakes) && Nondecreasing(z, -1, wakes)
  {
    var z := FixedOffset(calendar, 0, 5000);
    LeapDayArmed(calendar, orders, name, -1);
    LeapDayGoesQuiet(calendar, orders, name, wakes[0]);
    EmptyHeapIsPrompt(orders, z, wakes[1]);
    assert wakes[1..] == [wakes[1]] && wakes[1..][1..] == [];
    DayOf(0, 0);
    DayOf(2921 * DAY, 2921);
  }

  /** Woken at the first leap day and next at the second, each time on the dot, the order declares the
      first only: it has gone quiet in between. */
  lemma PromptRunLosesLeapDay(calendar: int -> Date, name: string)
    requires CenturyGap(calendar)
    ensures var z, orders := FixedOffset(calendar, 0, 5000), [Order(name, Cron(LeapDay()), HOUR)];
            var entries, wakes := map[0 := 0], [Wake(0, false), Wake(2921 * DAY, false)];
            && InStep(entries, orders, z, -1) && AllPrompt(entries, orders, z, wakes) && Nondecreasing(z, -1, wakes)
            && LosesFire(orders, z, 0, wakes, 0, 2921 * DAY, 2921 * DAY)
            && !AllFires(Schedule(entries, orders, z, -1, wakes, 0), orders, z, 0, -1, 2921 * DAY)
  {
    var z, orders := FixedOffset(calendar, 0, 5000), [Order(name, Cron(LeapDay()), HOUR)];
    var entries, wakes := map[0 := 0], [Wake(0, false), Wake(2921 * DAY, false)];
    FixedOffsetIsAligned(calendar, 0, 5000);
    LeapRunIsPrompt(calendar, orders, name, wakes);
    LeapDayFires(calendar, 2921);
    CenturyGapIsWide(calendar, 0);
    assert LosesFire(orders, z, 0, wakes, 0, 2921 * DAY, 2921 * DAY);
    DayOf(-1, -1);
    PromptRunExactly(entries, orders, z, -1, wakes, 0);
  }
}
