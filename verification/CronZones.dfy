/** Zones the search is right on, one it is not, and the meaning of a parsed expression. */
module CronZones {
  import opened Wrappers
  import opened CronField
  import opened CronSchedule

  // ---- fixed offsets and whole-hour changes ------------------------------

  function FixedOffset(calendar: int -> Date, offset: int, lastDay: int): Zone {
    Zone(calendar,
         (d, h, m) => true,
         (d, h, m) => d * DAY + h * HOUR + m * MINUTE - offset,
         t => (t + offset) / DAY,
         lastDay)
  }

  /** Which day a count of nanoseconds falls on. */
  lemma DayOf(t: int, d: int)
    ensures t / DAY == d <==> d * DAY <= t < d * DAY + DAY
    ensures t / DAY <= d <==> t < d * DAY + DAY
    ensures d <= t / DAY <==> d * DAY <= t
  {
  }

  lemma FixedOffsetIsAligned(calendar: int -> Date, offset: int, lastDay: int)
    ensures HourAligned(FixedOffset(calendar, offset, lastDay))
  {
    var z := FixedOffset(calendar, offset, lastDay);
    forall d, h, m | 0 <= h < 24 && 0 <= m < 60
      ensures d <= z.dateOf(z.resolve(d, h, m))
    {
      DayOf(z.resolve(d, h, m) + offset, d);
    }
    forall t, d, h, m
      ensures StartIsSound(z, t, d, h, m)
    {
      DayOf(t + offset, d);
    }
    forall t, u
      ensures DatesInOrder(z, t, u)
    {
      DayOf(t + offset, z.dateOf(u));
      DayOf(u + offset, z.dateOf(u));
      DayOf(t + offset, z.dateOf(t));
      DayOf(u + offset, z.dateOf(t) + 1);
    }
  }

  /** On day `g` the clock goes from 02:00 to 03:00 (`forward`) or back to 01:00. A skipped time
      resolves as if the old offset still held; a repeated one to its first pass. */
  function HourChange(calendar: int -> Date, g: int, forward: bool, lastDay: int): Zone {
    var shift := if forward then HOUR else -HOUR;
    var first := if forward then 3 else 2;
    Zone(calendar,
         (d, h, m) => true,
         (d, h, m) => d * DAY + h * HOUR + m * MINUTE - (if d > g || (d == g && h >= first) then shift else 0),
         t => if t < g * DAY + 2 * HOUR then t / DAY else (t + shift) / DAY,
         lastDay)
  }

  lemma HourChangeKeepsOrder(calendar: int -> Date, g: int, forward: bool, lastDay: int, c: int, d: int, f: int, h: int,
                             m: int)
    ensures var z := HourChange(calendar, g, forward, lastDay);
            MinutesInOrder(z, d, h, m) && HoursInOrder(z, d, f, h) && DaysInOrder(z, c, d, f, h)
  {
  }

  lemma HourChangeDates(calendar: int -> Date, g: int, forward: bool, lastDay: int, d: int, h: int, m: int)
    requires 0 <= h < 24 && 0 <= m < 60
    ensures var z := HourChange(calendar, g, forward, lastDay);
            d <= z.dateOf(z.resolve(d, h, m))
  {
    var t := HourChange(calendar, g, forward, lastDay).resolve(d, h, m);
    DayOf(t, d);
    DayOf(t + if forward then HOUR else -HOUR, d);
  }

  lemma HourChangeStart(calendar: int -> Date, g: int, forward: bool, lastDay: int, t: int, d: int, h: int, m: int)
    ensures StartIsSound(HourChange(calendar, g, forward, lastDay), t, d, h, m)
  {
    DayOf(t, d);
    DayOf(t + if forward then HOUR else -HOUR, d);
  }

  lemma HourChangeMonotone(calendar: int -> Date, g: int, forward: bool, lastDay: int, t: int, u: int)
    ensures DatesInOrder(HourChange(calendar, g, forward, lastDay), t, u)
  {
    var z := HourChange(calendar, g, forward, lastDay);
    var shift := if forward then HOUR else -HOUR;
    AroundDay(t, shift, z.dateOf(u));
    AroundDay(u, shift, z.dateOf(u));
    AroundDay(t, shift, z.dateOf(t));
    AroundDay(u, shift, z.dateOf(t) + 1);
    AroundDay(t, shift, g);
    AroundDay(u, shift, g);
  }

  lemma AroundDay(t: int, shift: int, d: int)
    ensures t / DAY <= d <==> t < d * DAY + DAY
    ensures d <= t / DAY <==> d * DAY <= t
    ensures (t + shift) / DAY <= d <==> t + shift < d * DAY + DAY
    ensures d <= (t + shift) / DAY <==> d * DAY <= t + shift
  {
    DayOf(t, d);
    DayOf(t + shift, d);
  }

  lemma HourChangeIsAligned(calendar: int -> Date, g: int, forward: bool, lastDay: int)
    ensures HourAligned(HourChange(calendar, g, forward, lastDay))
  {
    var z := HourChange(calendar, g, forward, lastDay);
    forall d, h, m
      ensures MinutesInOrder(z, d, h, m)
    {
      HourChangeKeepsOrder(calendar, g, forward, lastDay, 0, d, 0, h, m);
    }
    forall d, f, h
      ensures HoursInOrder(z, d, f, h)
    {
      HourChangeKeepsOrder(calendar, g, forward, lastDay, 0, d, f, h, 0);
    }
    forall c, d, f, h
      ensures DaysInOrder(z, c, d, f, h)
    {
      HourChangeKeepsOrder(calendar, g, forward, lastDay, c, d, f, h, 0);
    }
    forall d, h, m | 0 <= h < 24 && 0 <= m < 60
      ensures d <= z.dateOf(z.resolve(d, h, m))
    {
      HourChangeDates(calendar, g, forward, lastDay, d, h, m);
    }
    forall t, d, h, m
      ensures StartIsSound(z, t, d, h, m)
    {
      HourChangeStart(calendar, g, forward, lastDay, t, d, h, m);
    }
    forall t, u
      ensures DatesInOrder(z, t, u)
    {
      HourChangeMonotone(calendar, g, forward, lastDay, t, u);
    }
  }

  // ---- a gap of any length -----------------------------------------------

  const DAY_MINUTES := 1440

  /** A civil time of day `d` as an instant, in minutes: skipped times resolve as if the old offset still
      held. */
  function GapMinute(g: int, at: int, length: int, d: int, h: int, m: int): int {
    var c := d * DAY_MINUTES + h * 60 + m;
    if c >= g * DAY_MINUTES + at + length then c - length else c
  }

  /** An instant on the clock of day `g`, which goes forward by `length` minutes, from minute `at` of the
      day on. */
  function GapClock(g: int, at: int, length: int, t: int): int {
    if t < (g * DAY_MINUTES + at) * MINUTE then t else t + length * MINUTE
  }

  function ForwardGap(calendar: int -> Date, g: int, at: int, length: int, lastDay: int): Zone {
    Zone(calendar,
         (d, h, m) => true,
         (d, h, m) => GapMinute(g, at, length, d, h, m) * MINUTE,
         t => GapClock(g, at, length, t) / DAY,
         lastDay)
  }

  lemma InOrder(a: int, b: int)
    ensures a <= b <==> a * MINUTE <= b * MINUTE
    ensures a < b <==> a * MINUTE < b * MINUTE
    ensures a < b <==> a * MINUTE <= b * MINUTE - 1
  {
  }

  /** The gap, and as much time again behind it, lie inside the day. */
  predicate InsideDay(at: int, length: int) {
    0 <= at && 0 < length && at + 2 * length <= DAY_MINUTES
  }

  /** The expression's hours and minutes name minute `x` of a day. */
  predicate NamesMinute(e: CronExpr, x: int) {
    0 <= x < DAY_MINUTES && Contains(e.hours, x / 60) && Contains(e.minutes, x % 60)
  }

  /** Minute `k` behind the gap comes, as an instant, before the skipped minute `m`, and no skipped
      minute stands in for it. */
  predicate HiddenMinute(e: CronExpr, at: int, length: int, m: int, k: int) {
    && at <= m < at + length <= k && k - length < m
    && NamesMinute(e, m) && NamesMinute(e, k) && !NamesMinute(e, k - length)
  }

  /** The date of the gap matches and some minute is hidden: read off the expression and the gap. */
  ghost predicate GapHidesFire(e: CronExpr, calendar: int -> Date, g: int, at: int, length: int) {
    DayMatches(e, calendar(g)) && exists m, k :: HiddenMinute(e, at, length, m, k)
  }

  lemma MinuteOfDay(e: CronExpr, z: Zone, d: int, after: int, h: int, m: int)
    requires 0 <= h < 24 && 0 <= m < 60 && z.resolvable(d, h, m) && z.resolve(d, h, m) > after
    ensures Candidate(e, z, d, after, 0, h, m) <==> NamesMinute(e, h * 60 + m)
  {
    assert (h * 60 + m) / 60 == h && (h * 60 + m) % 60 == m;
  }

  lemma NamedMinute(e: CronExpr, x: int) returns (h: int, m: int)
    requires NamesMinute(e, x)
    ensures 0 <= h < 24 && 0 <= m < 60 && x == h * 60 + m && Contains(e.hours, h) && Contains(e.minutes, m)
  {
    h, m := x / 60, x % 60;
  }

  /** Which instants are past day `d`. */
  lemma GapDates(calendar: int -> Date, g: int, at: int, length: int, lastDay: int, t: int, d: int)
    ensures d < ForwardGap(calendar, g, at, length, lastDay).dateOf(t) <==>
            (d + 1) * DAY_MINUTES * MINUTE <= GapClock(g, at, length, t)
  {
    DayOf(GapClock(g, at, length, t), d + 1);
    assert (d + 1) * DAY_MINUTES * MINUTE == (d + 1) * DAY;
  }

  lemma GapFirstLeads(e: CronExpr, calendar: int -> Date, g: int, at: int, length: int, lastDay: int, d: int,
                      after: int)
    requires InsideDay(at, length) && (d == g ==> forall m, k :: !HiddenMinute(e, at, length, m, k))
    ensures FirstLeads(e, ForwardGap(calendar, g, at, length, lastDay), d, after)
  {
    var z := ForwardGap(calendar, g, at, length, lastDay);
    forall h, m, f, k | FirstTick(e, z, d, after, 0, h, m) && Candidate(e, z, d, after, 0, f, k)
      ensures z.resolve(d, h, m) <= z.resolve(d, f, k)
    {
      FirstBeats(e, calendar, g, at, length, lastDay, d, after, h, m, f, k);
    }
  }

  lemma FirstBeats(e: CronExpr, calendar: int -> Date, g: int, at: int, length: int, lastDay: int, d: int, after: int,
                   h: int, m: int, f: int, k: int)
    requires InsideDay(at, length) && (d == g ==> forall m, k :: !HiddenMinute(e, at, length, m, k))
    requires FirstTick(e, ForwardGap(calendar, g, at, length, lastDay), d, after, 0, h, m)
    requires Candidate(e, ForwardGap(calendar, g, at, length, lastDay), d, after, 0, f, k)
    ensures var z := ForwardGap(calendar, g, at, length, lastDay); z.resolve(d, h, m) <= z.resolve(d, f, k)
  {
    var z := ForwardGap(calendar, g, at, length, lastDay);
    var x, y := h * 60 + m, f * 60 + k;
    MinuteOfDay(e, z, d, after, h, m);
    MinuteOfDay(e, z, d, after, f, k);
    var a, b := GapMinute(g, at, length, d, h, m), GapMinute(g, at, length, d, f, k);
    InOrder(a, b);
    if b < a {
      OnlyGapSwaps(g, at, length, d, h, m, f, k);
      assert !HiddenMinute(e, at, length, x, y);
      var i, j := NamedMinute(e, y - length);
      assert GapMinute(g, at, length, d, i, j) == b;
      MinuteOfDay(e, z, d, after, i, j);
    }
  }

  lemma OnlyGapSwaps(g: int, at: int, length: int, d: int, h: int, m: int, f: int, k: int)
    requires InsideDay(at, length) && 0 <= h < 24 && 0 <= m < 60 && 0 <= f < 24 && 0 <= k < 60
    requires h < f || (h == f && m <= k)
    requires GapMinute(g, at, length, d, f, k) < GapMinute(g, at, length, d, h, m)
    ensures d == g && at <= h * 60 + m < at + length <= f * 60 + k && f * 60 + k - length < h * 60 + m
  {
  }

  lemma GapDays(calendar: int -> Date, g: int, at: int, length: int, lastDay: int, c: int, h: int, m: int, d: int,
                f: int, k: int)
    requires InsideDay(at, length)
    ensures DayLeads(ForwardGap(calendar, g, at, length, lastDay), c, h, m, d, f, k)
  {
    if c < d && 0 <= h < 24 && 0 <= m < 60 && 0 <= f < 24 && 0 <= k < 60 {
      EarlierDayMinute(g, at, length, c, h, m, d, f, k);
      InOrder(GapMinute(g, at, length, c, h, m), GapMinute(g, at, length, d, f, k));
    }
  }

  lemma EarlierDayMinute(g: int, at: int, length: int, c: int, h: int, m: int, d: int, f: int, k: int)
    requires InsideDay(at, length) && c < d && 0 <= h < 24 && 0 <= m < 60 && 0 <= f < 24 && 0 <= k < 60
    ensures GapMinute(g, at, length, c, h, m) <= GapMinute(g, at, length, d, f, k)
  {
    var x, y := h * 60 + m, f * 60 + k;
    assert 0 <= x < DAY_MINUTES && 0 <= y;
    assert c * DAY_MINUTES + x < (c + 1) * DAY_MINUTES <= d * DAY_MINUTES + y;
    if c < g {
      assert (c + 1) * DAY_MINUTES <= g * DAY_MINUTES;
    } else if c == g {
      assert (g + 1) * DAY_MINUTES == g * DAY_MINUTES + DAY_MINUTES;
    } else {
      assert (g + 1) * DAY_MINUTES <= c * DAY_MINUTES;
    }
  }

  lemma GapStart(calendar: int -> Date, g: int, at: int, length: int, lastDay: int, t: int, d: int, h: int, m: int)
    requires InsideDay(at, length)
    ensures StartIsSound(ForwardGap(calendar, g, at, length, lastDay), t, d, h, m)
  {
    GapDates(calendar, g, at, length, lastDay, t, d);
    if d < ForwardGap(calendar, g, at, length, lastDay).dateOf(t) && 0 <= h < 24 && 0 <= m < 60 {
      DayIsOver(g, at, length, t, d, h, m);
    }
  }

  lemma DayIsOver(g: int, at: int, length: int, t: int, d: int, h: int, m: int)
    requires InsideDay(at, length) && 0 <= h < 24 && 0 <= m < 60
    requires (d + 1) * DAY_MINUTES * MINUTE <= GapClock(g, at, length, t)
    ensures GapMinute(g, at, length, d, h, m) * MINUTE <= t
  {
    var last, r := (d + 1) * DAY_MINUTES, GapMinute(g, at, length, d, h, m);
    if t < (g * DAY_MINUTES + at) * MINUTE {
      InOrder(r, last);
    } else if d < g {
      InOrder(r, g * DAY_MINUTES + at);
    } else {
      InOrder(r, last - length);
      assert (last - length) * MINUTE == last * MINUTE - length * MINUTE;
    }
  }

  lemma GapIsSearchable(e: CronExpr, calendar: int -> Date, g: int, at: int, length: int, lastDay: int, after: int)
    requires InsideDay(at, length) && !GapHidesFire(e, calendar, g, at, length)
    ensures Searchable(e, ForwardGap(calendar, g, at, length, lastDay), after)
  {
    var z := ForwardGap(calendar, g, at, length, lastDay);
    forall d | d <= z.lastDay && DayMatches(e, z.calendar(d))
      ensures FirstLeads(e, z, d, after)
    {
      GapFirstLeads(e, calendar, g, at, length, lastDay, d, after);
    }
    forall c, h, m, d, f, k
      ensures DayLeads(z, c, h, m, d, f, k)
    {
      GapDays(calendar, g, at, length, lastDay, c, h, m, d, f, k);
    }
    forall d, h, m
      ensures StartIsSound(z, after, d, h, m)
    {
      GapStart(calendar, g, at, length, lastDay, after, d, h, m);
    }
  }

  /** The instant of the hidden minute `k`. */
  function HiddenInstant(g: int, length: int, k: int): int {
    (g * DAY_MINUTES + k - length) * MINUTE
  }

  /** On the day of the gap, the first minute the scan finds past that instant is a later one. */
  lemma SkippedMinuteStandsIn(e: CronExpr, calendar: int -> Date, g: int, at: int, length: int, lastDay: int,
                              m: int, k: int)
    returns (z: Zone, after: int, t: int)
    requires InsideDay(at, length) && HiddenMinute(e, at, length, m, k)
    ensures z == ForwardGap(calendar, g, at, length, lastDay) && after == HiddenInstant(g, length, k) - 1
    ensures FirstOnDay(e, z, g, after, 0) == Some(t) && t > after + 1
  {
    z, after := ForwardGap(calendar, g, at, length, lastDay), HiddenInstant(g, length, k) - 1;
    var h, j := SkippedIsCandidate(e, calendar, g, at, length, lastDay, m, k);
    var f, i;
    t, f, i := ScanStopsBy(e, z, g, after, h, j);
    assert z.resolve(g, f, i) > after + 1 by {
      StandInResolves(e, calendar, g, at, length, lastDay, k, h, j, f, i);
    }
  }

  lemma StandInResolves(e: CronExpr, calendar: int -> Date, g: int, at: int, length: int, lastDay: int, k: int,
                        h: int, j: int, f: int, i: int)
    requires 0 <= j < 60 && (f < h || (f == h && i <= j)) && h * 60 + j < at + length && !NamesMinute(e, k - length)
    requires Candidate(e, ForwardGap(calendar, g, at, length, lastDay), g, HiddenInstant(g, length, k) - 1, 0, f, i)
    ensures ForwardGap(calendar, g, at, length, lastDay).resolve(g, f, i) > HiddenInstant(g, length, k)
  {
    MinuteOfDay(e, ForwardGap(calendar, g, at, length, lastDay), g, HiddenInstant(g, length, k) - 1, f, i);
    StandInIsLater(g, at, length, k, h, j, f, i);
  }

  lemma SkippedIsCandidate(e: CronExpr, calendar: int -> Date, g: int, at: int, length: int, lastDay: int,
                           m: int, k: int)
    returns (h: int, j: int)
    requires InsideDay(at, length) && HiddenMinute(e, at, length, m, k)
    ensures h * 60 + j == m
    ensures Candidate(e, ForwardGap(calendar, g, at, length, lastDay), g, HiddenInstant(g, length, k) - 1, 0, h, j)
  {
    h, j := NamedMinute(e, m);
    InOrder(g * DAY_MINUTES + k - length, GapMinute(g, at, length, g, h, j));
    MinuteOfDay(e, ForwardGap(calendar, g, at, length, lastDay), g, HiddenInstant(g, length, k) - 1, h, j);
  }

  lemma StandInIsLater(g: int, at: int, length: int, k: int, h: int, j: int, f: int, i: int)
    requires 0 <= i < 60 && 0 <= j < 60 && (f < h || (f == h && i <= j)) && h * 60 + j < at + length
    requires GapMinute(g, at, length, g, f, i) * MINUTE > HiddenInstant(g, length, k) - 1 && f * 60 + i != k - length
    ensures GapMinute(g, at, length, g, f, i) * MINUTE > HiddenInstant(g, length, k)
  {
    NoLaterThan(f, i, h, j);
    var r, lost := GapMinute(g, at, length, g, f, i), g * DAY_MINUTES + k - length;
    InOrder(r, lost);
    InOrder(lost, r);
  }

  lemma NoLaterThan(f: int, i: int, h: int, j: int)
    requires (f < h || (f == h && i <= j)) && 0 <= i < 60 && 0 <= j < 60
    ensures f * 60 + i <= h * 60 + j
  {
  }

  /** Asked just before a hidden minute, the search starts on the day of the gap, or finds nothing on the
      day before. */
  lemma SearchMeetsGap(e: CronExpr, calendar: int -> Date, g: int, at: int, length: int, lastDay: int, k: int, t: int)
    requires InsideDay(at, length) && at + length <= k < at + 2 * length && g <= lastDay && DayMatches(e, calendar(g))
    requires FirstOnDay(e, ForwardGap(calendar, g, at, length, lastDay), g, HiddenInstant(g, length, k) - 1, 0) ==
        Some(t)
    ensures var z, after := ForwardGap(calendar, g, at, length, lastDay), HiddenInstant(g, length, k) - 1;
            z.dateOf(after) <= g && NextAfter(e, z, after) == Some(t)
  {
    var z, after := ForwardGap(calendar, g, at, length, lastDay), HiddenInstant(g, length, k) - 1;
    GapDayOf(calendar, g, at, length, lastDay, k);
    NothingTheDayBefore(e, calendar, g, at, length, lastDay, k);
    SearchFindsAt(e, z, after, z.dateOf(after), SEARCH_HORIZON_DAYS, g, t);
  }

  lemma GapDayOf(calendar: int -> Date, g: int, at: int, length: int, lastDay: int, k: int)
    requires InsideDay(at, length) && at + length <= k < at + 2 * length
    ensures g - 1 <= ForwardGap(calendar, g, at, length, lastDay).dateOf(HiddenInstant(g, length, k) - 1) <= g
  {
    var after := HiddenInstant(g, length, k) - 1;
    GapDates(calendar, g, at, length, lastDay, after, g);
    GapDates(calendar, g, at, length, lastDay, after, g - 2);
    InOrder((g - 1) * DAY_MINUTES, g * DAY_MINUTES + k - length);
    InOrder(g * DAY_MINUTES + k, (g + 1) * DAY_MINUTES);
    assert (g * DAY_MINUTES + k - length) * MINUTE + length * MINUTE == (g * DAY_MINUTES + k) * MINUTE;
  }

  lemma NothingTheDayBefore(e: CronExpr, calendar: int -> Date, g: int, at: int, length: int, lastDay: int, k: int)
    requires InsideDay(at, length) && at + length <= k < at + 2 * length
    ensures var after := HiddenInstant(g, length, k) - 1;
            FirstOnDay(e, ForwardGap(calendar, g, at, length, lastDay), g - 1, after, 0) == None
  {
    var z, after, d := ForwardGap(calendar, g, at, length, lastDay), HiddenInstant(g, length, k) - 1, g - 1;
    DayScan(e, z, d, after, 0);
    forall f, i
      ensures !Candidate(e, z, d, after, 0, f, i)
    {
      if 0 <= f < 24 && 0 <= i < 60 {
        InOrder(GapMinute(g, at, length, d, f, i), g * DAY_MINUTES + k - length);
      }
    }
  }

  lemma HiddenMinuteIsLost(e: CronExpr, calendar: int -> Date, g: int, at: int, length: int, lastDay: int,
                           m: int, k: int)
    requires InsideDay(at, length) && g <= lastDay && DayMatches(e, calendar(g)) && HiddenMinute(e, at, length, m, k)
    ensures var z, after := ForwardGap(calendar, g, at, length, lastDay), HiddenInstant(g, length, k) - 1;
            z.dateOf(after) <= lastDay && !FindsLeast(e, z, after)
  {
    var z, lost := ForwardGap(calendar, g, at, length, lastDay), HiddenInstant(g, length, k);
    var _, after, t := SkippedMinuteStandsIn(e, calendar, g, at, length, lastDay, m, k);
    SearchMeetsGap(e, calendar, g, at, length, lastDay, k, t);
    var h, j := NamedMinute(e, k);
    assert GapMinute(g, at, length, g, h, j) == g * DAY_MINUTES + k - length;
    assert FiresAt(e, z, g, h, j, lost);
    assert IsFire(e, z, lost);
  }

  /** Wherever the clock goes forward inside a day, by however many minutes, the search is right from
      every instant exactly when no minute is hidden. */
  lemma GapExactly(e: CronExpr, calendar: int -> Date, g: int, at: int, length: int, lastDay: int)
    requires InsideDay(at, length) && g <= lastDay
    ensures var z := ForwardGap(calendar, g, at, length, lastDay);
            (forall after :: z.dateOf(after) <= z.lastDay ==> FindsLeast(e, z, after)) <==>
            !GapHidesFire(e, calendar, g, at, length)
  {
    var z := ForwardGap(calendar, g, at, length, lastDay);
    if GapHidesFire(e, calendar, g, at, length) {
      var m, k :| HiddenMinute(e, at, length, m, k);
      HiddenMinuteIsLost(e, calendar, g, at, length, lastDay, m, k);
    } else {
      forall after | z.dateOf(after) <= z.lastDay
        ensures FindsLeast(e, z, after)
      {
        GapIsSearchable(e, calendar, g, at, length, lastDay, after);
        SearchableFindsLeast(e, z, after);
      }
    }
  }

  // ---- gaps that lose a fire ---------------------------------------------

  /** On day 0 the clock goes from 02:00 to 02:30. */
  function HalfHourGap(calendar: int -> Date): Zone {
    ForwardGap(calendar, 0, 120, 30, 1000)
  }

  function Everything(min: nat, size: nat): FieldSet {
    FieldSet(min, seq(size, _ => true), false)
  }

  /** `15,30 2 * * *` */
  function QuarterAndHalfPastTwo(): CronExpr {
    CronExpr(FieldSet(0, seq(60, i => i == 15 || i == 30), true), FieldSet(0, seq(24, i => i == 2), true),
             Everything(1, 31), Everything(1, 12), Everything(0, 7))
  }

  lemma {:induction false} SkipMinutes(e: CronExpr, z: Zone, d: int, h: int, after: int, m: nat, n: nat)
    requires m <= n <= 60 && forall k :: m <= k < n ==> !Contains(e.minutes, k)
    ensures FirstInHour(e, z, d, h, after, m) == FirstInHour(e, z, d, h, after, n)
    decreases n - m
  {
    if m < n {
      SkipMinutes(e, z, d, h, after, m + 1, n);
    }
  }

  lemma SearchTakesSkipped(calendar: int -> Date)
    requires 1 <= calendar(0).month <= 12
    ensures NextAfter(QuarterAndHalfPastTwo(), HalfHourGap(calendar), 2 * HOUR - MINUTE) == Some(2 * HOUR + 15 * MINUTE)
  {
    var e, z := QuarterAndHalfPastTwo(), HalfHourGap(calendar);
    var before := 2 * HOUR - MINUTE;
    SkipMinutes(e, z, 0, 2, before, 0, 15);
    assert z.resolve(0, 2, 15) == 2 * HOUR + 15 * MINUTE;
    assert FirstInHour(e, z, 0, 2, before, 0) == Some(2 * HOUR + 15 * MINUTE);
    assert FirstOnDay(e, z, 0, before, 2) == FirstInHour(e, z, 0, 2, before, 0);
    assert !Contains(e.hours, 0) && !Contains(e.hours, 1);
    assert FirstOnDay(e, z, 0, before, 0) == FirstOnDay(e, z, 0, before, 1) == FirstOnDay(e, z, 0, before, 2);
    assert z.dateOf(before) == 0;
    assert DayMatches(e, z.calendar(0));
  }

  /** Asked just before a half-hour gap, the search for this expression passes over 02:30, which is the
      instant of the gap, for the later one that 02:15 is pushed to, and, asked from there, does not
      come back to it. */
  lemma HalfHourGapLosesFire(calendar: int -> Date)
    requires 1 <= calendar(0).month <= 12
    ensures var e, z := QuarterAndHalfPastTwo(), HalfHourGap(calendar);
            var before, lost, found := 2 * HOUR - MINUTE, 2 * HOUR, 2 * HOUR + 15 * MINUTE;
            && before < lost < found && IsFire(e, z, lost)
            && NextAfter(e, z, before) == Some(found)
            && GapHidesFire(e, calendar, 0, 120, 30) && !HourAligned(z)
  {
    var e, z := QuarterAndHalfPastTwo(), HalfHourGap(calendar);
    SearchTakesSkipped(calendar);
    assert FiresAt(e, z, 0, 2, 30, 2 * HOUR);
    assert HiddenMinute(e, 120, 30, 135, 150);
    assert !MinutesInOrder(z, 0, 2, 30);
  }

  /** A gap so late that a skipped minute `m` is an instant of the next day: asked just before it, the
      search starts on that day and does not find it. */
  lemma LateGapLosesFire(e: CronExpr, calendar: int -> Date, g: int, at: int, length: int, lastDay: int, m: int)
    returns (z: Zone, lost: int)
    requires 0 <= at <= m < at + length <= DAY_MINUTES < m + length && g < lastDay
    requires DayMatches(e, calendar(g)) && NamesMinute(e, m)
    requires !(DayMatches(e, calendar(g + 1)) && NamesMinute(e, m + length - DAY_MINUTES))
    ensures z == ForwardGap(calendar, g, at, length, lastDay) && lost == (g * DAY_MINUTES + m) * MINUTE
    ensures z.dateOf(lost - 1) <= z.lastDay && PassesOver(e, z, lost - 1, lost)
  {
    var after, d: int;
    z, after, d, lost := LateGapFacts(e, calendar, g, at, length, lastDay, m);
    NotFound(e, z, after, d, lost);
  }

  lemma LateGapFacts(e: CronExpr, calendar: int -> Date, g: int, at: int, length: int, lastDay: int, m: int)
    returns (z: Zone, after: int, d: int, lost: int)
    requires 0 <= at <= m < at + length <= DAY_MINUTES < m + length && g < lastDay
    requires DayMatches(e, calendar(g)) && NamesMinute(e, m)
    requires !(DayMatches(e, calendar(g + 1)) && NamesMinute(e, m + length - DAY_MINUTES))
    ensures z == ForwardGap(calendar, g, at, length, lastDay) && lost == (g * DAY_MINUTES + m) * MINUTE
    ensures after == lost - 1 && IsFire(e, z, lost) && z.dateOf(after) == d <= z.lastDay && NotFrom(e, z, d, lost)
  {
    z, lost := ForwardGap(calendar, g, at, length, lastDay), (g * DAY_MINUTES + m) * MINUTE;
    after, d := lost - 1, g + 1;
    SkippedFires(e, calendar, g, at, length, lastDay, m);
    LateGapDay(calendar, g, at, length, lastDay, m);
    NotOnLaterDays(e, calendar, g, at, length, lastDay, m);
  }

  lemma SkippedFires(e: CronExpr, calendar: int -> Date, g: int, at: int, length: int, lastDay: int, m: int)
    requires m < at + length && g <= lastDay && DayMatches(e, calendar(g)) && NamesMinute(e, m)
    ensures IsFire(e, ForwardGap(calendar, g, at, length, lastDay), (g * DAY_MINUTES + m) * MINUTE)
  {
    var h, j := NamedMinute(e, m);
    assert GapMinute(g, at, length, g, h, j) == g * DAY_MINUTES + m;
    assert FiresAt(e, ForwardGap(calendar, g, at, length, lastDay), g, h, j, (g * DAY_MINUTES + m) * MINUTE);
  }

  lemma NotOnLaterDays(e: CronExpr, calendar: int -> Date, g: int, at: int, length: int, lastDay: int, m: int)
    requires 0 <= at <= m < at + length <= DAY_MINUTES < m + length
    requires !(DayMatches(e, calendar(g + 1)) && NamesMinute(e, m + length - DAY_MINUTES))
    ensures NotFrom(e, ForwardGap(calendar, g, at, length, lastDay), g + 1, (g * DAY_MINUTES + m) * MINUTE)
  {
    var z := ForwardGap(calendar, g, at, length, lastDay);
    forall c, f, k | Matches(e, z, c, f, k) && g + 1 <= c
      ensures z.resolve(c, f, k) != (g * DAY_MINUTES + m) * MINUTE
    {
      NotOnTheNextDay(e, calendar, g, at, length, lastDay, m, c, f, k);
    }
  }

  lemma NotOnTheNextDay(e: CronExpr, calendar: int -> Date, g: int, at: int, length: int, lastDay: int, m: int,
                        c: int, f: int, k: int)
    requires 0 <= at <= m < at + length <= DAY_MINUTES < m + length
    requires Matches(e, ForwardGap(calendar, g, at, length, lastDay), c, f, k) && g + 1 <= c
    requires !(DayMatches(e, calendar(g + 1)) && NamesMinute(e, m + length - DAY_MINUTES))
    ensures ForwardGap(calendar, g, at, length, lastDay).resolve(c, f, k) != (g * DAY_MINUTES + m) * MINUTE
  {
    var r := GapMinute(g, at, length, c, f, k);
    InOrder(r, g * DAY_MINUTES + m);
    InOrder(g * DAY_MINUTES + m, r);
    assert (f * 60 + k) / 60 == f && (f * 60 + k) % 60 == k;
    if r == g * DAY_MINUTES + m {
      LateGapMinute(g, at, length, m, c, f, k);
    }
  }

  lemma LateGapDay(calendar: int -> Date, g: int, at: int, length: int, lastDay: int, m: int)
    requires 0 <= at <= m < at + length <= DAY_MINUTES < m + length
    ensures ForwardGap(calendar, g, at, length, lastDay).dateOf((g * DAY_MINUTES + m) * MINUTE - 1) == g + 1
  {
    var after := (g * DAY_MINUTES + m) * MINUTE - 1;
    GapDates(calendar, g, at, length, lastDay, after, g);
    GapDates(calendar, g, at, length, lastDay, after, g + 1);
    InOrder(g * DAY_MINUTES + at, g * DAY_MINUTES + m);
    InOrder((g + 1) * DAY_MINUTES, g * DAY_MINUTES + m + length);
    InOrder(g * DAY_MINUTES + m + length, (g + 2) * DAY_MINUTES);
    assert (g * DAY_MINUTES + m) * MINUTE + length * MINUTE == (g * DAY_MINUTES + m + length) * MINUTE;
  }

  lemma LateGapMinute(g: int, at: int, length: int, m: int, c: int, f: int, k: int)
    requires 0 <= at <= m < at + length <= DAY_MINUTES < m + length && g < c && 0 <= f < 24 && 0 <= k < 60
    requires GapMinute(g, at, length, c, f, k) == g * DAY_MINUTES + m
    ensures c == g + 1 && f * 60 + k == m + length - DAY_MINUTES
  {
  }

  // ---- parsed text -------------------------------------------------------

  ghost predicate FieldHolds(text: string, field: FieldName, v: int) {
    ItemsOf(text, field).Ok? && Denotes(ItemsOf(text, field).value, Bounds(field).2, v)
  }

  /** The day rule read off the field texts. */
  ghost predicate DayRule(fields: seq<string>, date: Date)
    requires |fields| == 5
  {
    && FieldHolds(fields[3], Month, date.month)
    && var dom, dow := FieldHolds(fields[2], DayOfMonth, date.day), FieldHolds(fields[4], DayOfWeek, date.weekday);
       if fields[2] != "*" && fields[4] != "*" then dom || dow
       else (fields[2] != "*" ==> dom) && (fields[4] != "*" ==> dow)
  }

  ghost predicate TextFiresAt(fields: seq<string>, z: Zone, d: int, h: int, m: int, t: int)
    requires |fields| == 5
  {
    && d <= z.lastDay && 0 <= h < 24 && 0 <= m < 60 && z.resolvable(d, h, m) && z.resolve(d, h, m) == t
    && DayRule(fields, z.calendar(d)) && FieldHolds(fields[1], Hour, h) && FieldHolds(fields[0], Minute, m)
  }

  ghost predicate TextFires(fields: seq<string>, z: Zone, t: int)
    requires |fields| == 5
  {
    exists d, h, m :: TextFiresAt(fields, z, d, h, m, t)
  }

  lemma ParsedFires(e: CronExpr, fields: seq<string>, z: Zone, t: int)
    requires ExprMeans(e, fields)
    ensures IsFire(e, z, t) <==> TextFires(fields, z, t)
  {
    forall d, h, m
      ensures FiresAt(e, z, d, h, m, t) <==> TextFiresAt(fields, z, d, h, m, t)
    {
    }
  }

  /** The next fire of an expression as written: the least instant after `after` whose minute,
      hour, month and day rule hold in the sets the five field texts denote; none exactly when no such
      instant lies within six years of 366 days. */
  lemma NextOfText(e: CronExpr, fields: seq<string>, z: Zone, after: int)
    requires ExprMeans(e, fields) && HourAligned(z) && z.dateOf(after) <= z.lastDay
    ensures match NextAfter(e, z, after)
            case Some(t) =>
              TextFires(fields, z, t) && t > after && forall u :: TextFires(fields, z, u) && u > after ==> t <= u
            case None => forall d, h, m :: z.dateOf(after) <= d < z.dateOf(after) + 2196 ==>
                           !(TextFiresAt(fields, z, d, h, m, z.resolve(d, h, m)) && z.resolve(d, h, m) > after)
  {
    NextIsLeast(e, z, after);
    forall t
      ensures IsFire(e, z, t) <==> TextFires(fields, z, t)
    {
      ParsedFires(e, fields, z, t);
    }
    if NextAfter(e, z, after) == None {
      forall d, h, m | z.dateOf(after) <= d < z.dateOf(after) + 2196
        ensures !(TextFiresAt(fields, z, d, h, m, z.resolve(d, h, m)) && z.resolve(d, h, m) > after)
      {
        assert !FireInDays(e, z, after, z.dateOf(after), SEARCH_HORIZON_DAYS, d, h, m);
      }
    }
  }
}
