/** The next fire of a cron expression in a zone, and when the search finds the earliest one.
    Instants are integers counting nanoseconds. */
module CronSchedule {
  import opened Wrappers
  import opened CronField

  const SECOND := 1_000_000_000
  const MINUTE := 60_000_000_000
  const HOUR := 3_600_000_000_000
  const DAY := 86_400_000_000_000

  /** How far the search looks before declaring an expression dead. */
  const SEARCH_HORIZON_DAYS := 366 * 6

  datatype Date = Date(month: nat, day: nat, weekday: nat)

  /** A time zone over a calendar: the date of each day number, whether a civil time of a day
      resolves at all and to which instant, the day an instant falls on, and the last day of the
      calendar. */
  datatype Zone = Zone(
    calendar: int -> Date,
    resolvable: (int, int, int) -> bool,
    resolve: (int, int, int) -> int,
    dateOf: int -> int,
    lastDay: int)

  // ---- what a fire is ----------------------------------------------------

  /** Vixie's day rule: the month always; if both day fields are restricted, either; else the
      restricted one; else every day. */
  predicate DayMatches(e: CronExpr, date: Date) {
    Contains(e.months, date.month) &&
    match (e.daysOfMonth.restricted, e.daysOfWeek.restricted)
    case (true, true) => Contains(e.daysOfMonth, date.day) || Contains(e.daysOfWeek, date.weekday)
    case (true, false) => Contains(e.daysOfMonth, date.day)
    case (false, true) => Contains(e.daysOfWeek, date.weekday)
    case (false, false) => true
  }

  /** The expression names the minute, and the civil time resolves. */
  predicate Ticks(e: CronExpr, z: Zone, d: int, h: int, m: int) {
    Contains(e.minutes, m) && z.resolvable(d, h, m)
  }

  predicate Matches(e: CronExpr, z: Zone, d: int, h: int, m: int) {
    && d <= z.lastDay && 0 <= h < 24 && 0 <= m < 60
    && DayMatches(e, z.calendar(d)) && Contains(e.hours, h) && Ticks(e, z, d, h, m)
  }

  /** `t` is an instant the expression fires at. */
  ghost predicate IsFire(e: CronExpr, z: Zone, t: int) {
    exists d, h, m :: FiresAt(e, z, d, h, m, t)
  }

  ghost predicate FiresAt(e: CronExpr, z: Zone, d: int, h: int, m: int, t: int) {
    Matches(e, z, d, h, m) && z.resolve(d, h, m) == t
  }

  // ---- the search as a function ------------------------------------------

  /** The first matching minute of hour `h`, from `m` on, that resolves after `after`. */
  function FirstInHour(e: CronExpr, z: Zone, d: int, h: int, after: int, m: nat): (r: Option<int>)
    ensures r.Some? ==> r.value > after
    decreases 60 - m
  {
    if m >= 60 then None
    else if Ticks(e, z, d, h, m) && z.resolve(d, h, m) > after then Some(z.resolve(d, h, m))
    else FirstInHour(e, z, d, h, after, m + 1)
  }

  /** The first matching hour of day `d`, from `h` on, that has such a minute. */
  function FirstOnDay(e: CronExpr, z: Zone, d: int, after: int, h: nat): (r: Option<int>)
    ensures r.Some? ==> r.value > after
    decreases 24 - h
  {
    if h >= 24 then None
    else if Contains(e.hours, h) && FirstInHour(e, z, d, h, after, 0).Some? then FirstInHour(e, z, d, h, after, 0)
    else FirstOnDay(e, z, d, after, h + 1)
  }

  /** The first of `n` days from `d` on that has such an hour. */
  function FirstFrom(e: CronExpr, z: Zone, after: int, d: int, n: nat): (r: Option<int>)
    ensures r.Some? ==> r.value > after
    decreases n
  {
    if n == 0 then None
    else if DayMatches(e, z.calendar(d)) && FirstOnDay(e, z, d, after, 0).Some? then FirstOnDay(e, z, d, after, 0)
    else if d >= z.lastDay then None
    else FirstFrom(e, z, after, d + 1, n - 1)
  }

  function NextAfter(e: CronExpr, z: Zone, after: int): (r: Option<int>)
    ensures r.Some? ==> r.value > after
  {
    FirstFrom(e, z, after, z.dateOf(after), SEARCH_HORIZON_DAYS)
  }

  // ---- the search as the loops that run ----------------------------------

  method FirstFireOn(e: CronExpr, z: Zone, d: int, after: int) returns (r: Option<int>)
    ensures r == FirstOnDay(e, z, d, after, 0)
  {
    for h := 0 to 24
      invariant FirstOnDay(e, z, d, after, 0) == FirstOnDay(e, z, d, after, h)
    {
      if Contains(e.hours, h) {
        for m := 0 to 60
          invariant FirstInHour(e, z, d, h, after, 0) == FirstInHour(e, z, d, h, after, m)
        {
          if Contains(e.minutes, m) {
            if z.resolvable(d, h, m) {
              var ts := z.resolve(d, h, m);
              if ts > after {
                return Some(ts);
              }
            }
          }
        }
      }
    }
    return None;
  }

  method SearchNextAfter(e: CronExpr, z: Zone, after: int) returns (r: Option<int>)
    ensures r == NextAfter(e, z, after)
  {
    var date := z.dateOf(after);
    for i := 0 to SEARCH_HORIZON_DAYS
      invariant NextAfter(e, z, after) == FirstFrom(e, z, after, date, SEARCH_HORIZON_DAYS - i)
    {
      if DayMatches(e, z.calendar(date)) {
        var ts := FirstFireOn(e, z, date, after);
        if ts.Some? {
          return ts;
        }
      }
      if date >= z.lastDay {
        return None;
      }
      date := date + 1;
    }
    return None;
  }

  // ---- zones on which the search is right --------------------------------

  ghost predicate MinutesInOrder(z: Zone, d: int, h: int, m: int) {
    0 <= h < 24 && 0 <= m < 60 ==> z.resolve(d, h, m) == z.resolve(d, h, 0) + m * MINUTE
  }

  /** Two hours of one day resolve a whole hour or more apart, or to the very same hour. */
  ghost predicate HoursInOrder(z: Zone, d: int, g: int, h: int) {
    0 <= g < h < 24 ==> z.resolve(d, g, 0) == z.resolve(d, h, 0) || z.resolve(d, g, 0) + HOUR <= z.resolve(d, h, 0)
  }

  /** Hours that resolve to the same instants also resolve at the same minutes. */
  ghost predicate HoursAgree(z: Zone, d: int, g: int, h: int, m: int) {
    && 0 <= g < h < 24 && 0 <= m < 60 && z.resolve(d, g, 0) == z.resolve(d, h, 0) ==>
      z.resolvable(d, g, m) == z.resolvable(d, h, m)
  }

  ghost predicate DaysInOrder(z: Zone, c: int, d: int, g: int, h: int) {
    c < d && 0 <= g < 24 && 0 <= h < 24 ==> z.resolve(c, g, 0) + HOUR <= z.resolve(d, h, 0)
  }

  /** Civil times of days before the date of `t` are not after `t`. */
  ghost predicate StartIsSound(z: Zone, t: int, d: int, h: int, m: int) {
    d < z.dateOf(t) && 0 <= h < 24 && 0 <= m < 60 ==> z.resolve(d, h, m) <= t
  }

  /** The date moves on by at most one day within a minute, and never back. */
  ghost predicate DatesInOrder(z: Zone, t: int, u: int) {
    t <= u ==> z.dateOf(t) <= z.dateOf(u) && (u <= t + MINUTE ==> z.dateOf(u) <= z.dateOf(t) + 1)
  }

  /** Offsets change, if at all, by skipping or repeating whole hours inside a day. */
  ghost predicate HourAligned(z: Zone) {
    && (forall d, h, m :: MinutesInOrder(z, d, h, m))
    && (forall d, g, h :: HoursInOrder(z, d, g, h))
    && (forall d, g, h, m :: HoursAgree(z, d, g, h, m))
    && (forall c, d, g, h :: DaysInOrder(z, c, d, g, h))
    && (forall t, d, h, m :: StartIsSound(z, t, d, h, m))
    && (forall t, u :: DatesInOrder(z, t, u))
    && (forall d, h, m :: 0 <= h < 24 && 0 <= m < 60 ==> d <= z.dateOf(z.resolve(d, h, m)))
  }

  // ---- the search finds the earliest fire --------------------------------

  /** `t` is a minute of hour `h`, and no later than any other that is past `after`. */
  ghost predicate LeastInHour(e: CronExpr, z: Zone, d: int, h: int, after: int, m: nat, t: int) {
    exists k :: m <= k < 60 && MinuteIs(e, z, d, h, k, t) && NoneBefore(e, z, d, h, after, m, k)
  }

  ghost predicate MinuteIs(e: CronExpr, z: Zone, d: int, h: int, k: int, t: int) {
    Ticks(e, z, d, h, k) && z.resolve(d, h, k) == t
  }

  ghost predicate NoneBefore(e: CronExpr, z: Zone, d: int, h: int, after: int, m: int, k: int) {
    forall j :: m <= j < k && Ticks(e, z, d, h, j) ==> z.resolve(d, h, j) <= after
  }

  lemma {:induction false} HourResult(e: CronExpr, z: Zone, d: int, h: int, after: int, m: nat)
    requires m <= 60
    ensures match FirstInHour(e, z, d, h, after, m)
            case Some(t) => LeastInHour(e, z, d, h, after, m, t)
            case None => NoneBefore(e, z, d, h, after, m, 60)
    decreases 60 - m
  {
    if m < 60 {
      if Ticks(e, z, d, h, m) && z.resolve(d, h, m) > after {
        assert MinuteIs(e, z, d, h, m, z.resolve(d, h, m)) && NoneBefore(e, z, d, h, after, m, m);
      } else {
        HourResult(e, z, d, h, after, m + 1);
        if FirstInHour(e, z, d, h, after, m + 1).Some? {
          var t := FirstInHour(e, z, d, h, after, m + 1).value;
          var k :| m + 1 <= k < 60 && MinuteIs(e, z, d, h, k, t) && NoneBefore(e, z, d, h, after, m + 1, k);
          assert NoneBefore(e, z, d, h, after, m, k);
        }
      }
    }
  }

  /** A matching minute of day `d`, at or after hour `h`, that resolves past `after`. */
  ghost predicate Candidate(e: CronExpr, z: Zone, d: int, after: int, h: int, g: int, m: int) {
    && h <= g < 24 && 0 <= m < 60 && Contains(e.hours, g) && Ticks(e, z, d, g, m)
    && z.resolve(d, g, m) > after
  }

  /** Minute `m` of hour `g` is the first candidate as the scan goes, hour by hour. */
  ghost predicate FirstTick(e: CronExpr, z: Zone, d: int, after: int, h: int, g: int, m: int) {
    && Candidate(e, z, d, after, h, g, m)
    && forall f, k :: Candidate(e, z, d, after, h, f, k) ==> g < f || (g == f && m <= k)
  }

  /** What the scan of a day returns. */
  ghost predicate Scanned(e: CronExpr, z: Zone, d: int, after: int, h: int, r: Option<int>) {
    match r
    case Some(t) => exists g, m :: FirstTick(e, z, d, after, h, g, m) && z.resolve(d, g, m) == t
    case None => forall g, m :: !Candidate(e, z, d, after, h, g, m)
  }

  lemma HourHolds(e: CronExpr, z: Zone, d: int, after: int, h: nat)
    requires h < 24 && Contains(e.hours, h) && FirstInHour(e, z, d, h, after, 0).Some?
    ensures Scanned(e, z, d, after, h, FirstInHour(e, z, d, h, after, 0))
  {
    var t := FirstInHour(e, z, d, h, after, 0).value;
    HourResult(e, z, d, h, after, 0);
    var m :| 0 <= m < 60 && MinuteIs(e, z, d, h, m, t) && NoneBefore(e, z, d, h, after, 0, m);
    assert FirstTick(e, z, d, after, h, h, m);
  }

  lemma HourHoldsNone(e: CronExpr, z: Zone, d: int, after: int, h: nat, r: Option<int>)
    requires h < 24 && (!Contains(e.hours, h) || NoneBefore(e, z, d, h, after, 0, 60))
    requires Scanned(e, z, d, after, h + 1, r)
    ensures Scanned(e, z, d, after, h, r)
  {
    forall g, m
      ensures Candidate(e, z, d, after, h, g, m) <==> Candidate(e, z, d, after, h + 1, g, m)
    {
    }
    if r.Some? {
      var g, m :| FirstTick(e, z, d, after, h + 1, g, m) && z.resolve(d, g, m) == r.value;
      assert FirstTick(e, z, d, after, h, g, m);
    }
  }

  lemma {:induction false} DayScan(e: CronExpr, z: Zone, d: int, after: int, h: nat)
    requires h <= 24
    ensures Scanned(e, z, d, after, h, FirstOnDay(e, z, d, after, h))
    decreases 24 - h
  {
    if h < 24 {
      if Contains(e.hours, h) && FirstInHour(e, z, d, h, after, 0).Some? {
        HourHolds(e, z, d, after, h);
      } else {
        HourResult(e, z, d, h, after, 0);
        DayScan(e, z, d, after, h + 1);
        HourHoldsNone(e, z, d, after, h, FirstOnDay(e, z, d, after, h + 1));
      }
    }
  }

  /** Where there is a candidate, the scan returns one that is not behind it. */
  lemma ScanStopsBy(e: CronExpr, z: Zone, d: int, after: int, h: int, j: int) returns (t: int, f: int, i: int)
    requires Candidate(e, z, d, after, 0, h, j)
    ensures FirstOnDay(e, z, d, after, 0) == Some(t) && z.resolve(d, f, i) == t
    ensures Candidate(e, z, d, after, 0, f, i) && (f < h || (f == h && i <= j))
  {
    DayScan(e, z, d, after, 0);
    t := FirstOnDay(e, z, d, after, 0).value;
    f, i :| FirstTick(e, z, d, after, 0, f, i) && z.resolve(d, f, i) == t;
  }

  /** The first candidate as the scan goes is the earliest of the day. */
  ghost predicate FirstLeads(e: CronExpr, z: Zone, d: int, after: int) {
    forall g, m, f, k :: FirstTick(e, z, d, after, 0, g, m) && Candidate(e, z, d, after, 0, f, k) ==>
      z.resolve(d, g, m) <= z.resolve(d, f, k)
  }

  ghost predicate DayLeads(z: Zone, c: int, g: int, k: int, d: int, h: int, m: int) {
    c < d && 0 <= g < 24 && 0 <= k < 60 && 0 <= h < 24 && 0 <= m < 60 ==> z.resolve(c, g, k) <= z.resolve(d, h, m)
  }

  /** What the search from `after` relies on: days in order, no fire on a day before its first, and
      on each matching day the scan order of hours and minutes meeting the earliest fire first. */
  ghost predicate Searchable(e: CronExpr, z: Zone, after: int) {
    && (forall d :: d <= z.lastDay && DayMatches(e, z.calendar(d)) ==> FirstLeads(e, z, d, after))
    && (forall c, g, k, d, h, m :: DayLeads(z, c, g, k, d, h, m))
    && (forall d, h, m :: StartIsSound(z, after, d, h, m))
  }

  /** `r` is the earliest candidate of the day. */
  ghost predicate DaySettled(e: CronExpr, z: Zone, d: int, after: int, r: Option<int>) {
    && (r.Some? ==> exists g, m :: Candidate(e, z, d, after, 0, g, m) && z.resolve(d, g, m) == r.value)
    && (forall g, m :: Candidate(e, z, d, after, 0, g, m) ==> r.Some? && r.value <= z.resolve(d, g, m))
  }

  lemma DayResult(e: CronExpr, z: Zone, d: int, after: int)
    requires FirstLeads(e, z, d, after)
    ensures DaySettled(e, z, d, after, FirstOnDay(e, z, d, after, 0))
  {
    DayScan(e, z, d, after, 0);
    if FirstOnDay(e, z, d, after, 0).Some? {
      var g, m :| FirstTick(e, z, d, after, 0, g, m) && z.resolve(d, g, m) == FirstOnDay(e, z, d, after, 0).value;
    }
  }

  /** A fire past `after` on one of the searched days. */
  ghost predicate FireInDays(e: CronExpr, z: Zone, after: int, d: int, n: int, c: int, h: int, m: int) {
    Matches(e, z, c, h, m) && d <= c < d + n && z.resolve(c, h, m) > after
  }

  ghost predicate FireFromDay(e: CronExpr, z: Zone, after: int, d: int, c: int, h: int, m: int) {
    Matches(e, z, c, h, m) && d <= c && z.resolve(c, h, m) > after
  }

  /** `r` is a fire on one of the `n` days, no later than any fire from `d` on; or there is none. */
  ghost predicate SearchSettled(e: CronExpr, z: Zone, after: int, d: int, n: int, r: Option<int>) {
    match r
    case Some(t) =>
      && (exists c, h, m :: FireInDays(e, z, after, d, n, c, h, m) && z.resolve(c, h, m) == t)
      && (forall c, h, m :: FireFromDay(e, z, after, d, c, h, m) ==> t <= z.resolve(c, h, m))
    case None => forall c, h, m :: !FireInDays(e, z, after, d, n, c, h, m)
  }

  lemma DayFound(e: CronExpr, z: Zone, after: int, d: int, n: nat, t: int)
    requires Searchable(e, z, after) && d <= z.lastDay && n > 0 && DayMatches(e, z.calendar(d))
    requires DaySettled(e, z, d, after, Some(t))
    ensures SearchSettled(e, z, after, d, n, Some(t))
  {
    var g, k :| Candidate(e, z, d, after, 0, g, k) && z.resolve(d, g, k) == t;
    assert FireInDays(e, z, after, d, n, d, g, k);
    forall c, h, m | FireFromDay(e, z, after, d, c, h, m)
      ensures t <= z.resolve(c, h, m)
    {
      if c > d {
        assert DayLeads(z, d, g, k, c, h, m);
      } else {
        assert Candidate(e, z, d, after, 0, h, m);
      }
    }
  }

  lemma DayEmpty(e: CronExpr, z: Zone, after: int, d: int, n: nat, r: Option<int>)
    requires n > 0 && (!DayMatches(e, z.calendar(d)) || DaySettled(e, z, d, after, None))
    requires if d < z.lastDay then SearchSettled(e, z, after, d + 1, n - 1, r) else r == None
    ensures SearchSettled(e, z, after, d, n, r)
  {
    forall h, m | Matches(e, z, d, h, m)
      ensures z.resolve(d, h, m) <= after
    {
      if z.resolve(d, h, m) > after {
        assert Candidate(e, z, d, after, 0, h, m);
      }
    }
    if r.Some? {
      var c, h, m :| FireInDays(e, z, after, d + 1, n - 1, c, h, m) && z.resolve(c, h, m) == r.value;
      assert FireInDays(e, z, after, d, n, c, h, m);
      forall c, h, m | FireFromDay(e, z, after, d, c, h, m)
        ensures r.value <= z.resolve(c, h, m)
      {
        assert FireFromDay(e, z, after, d + 1, c, h, m);
      }
    } else if d < z.lastDay {
      forall c, h, m
        ensures !FireInDays(e, z, after, d, n, c, h, m)
      {
        assert !FireInDays(e, z, after, d + 1, n - 1, c, h, m);
      }
    }
  }

  lemma {:induction false} SearchResult(e: CronExpr, z: Zone, after: int, d: int, n: nat)
    requires Searchable(e, z, after) && d <= z.lastDay
    ensures SearchSettled(e, z, after, d, n, FirstFrom(e, z, after, d, n))
    decreases n
  {
    if n > 0 {
      if DayMatches(e, z.calendar(d)) {
        DayResult(e, z, d, after);
      }
      if DayMatches(e, z.calendar(d)) && FirstOnDay(e, z, d, after, 0).Some? {
        DayFound(e, z, after, d, n, FirstOnDay(e, z, d, after, 0).value);
      } else {
        if d < z.lastDay {
          SearchResult(e, z, after, d + 1, n - 1);
        }
        DayEmpty(e, z, after, d, n, FirstFrom(e, z, after, d, n));
      }
    }
  }

  /** Whatever the zone, what is returned is a fire on one of the searched days. */
  lemma {:induction false} ResultFires(e: CronExpr, z: Zone, after: int, d: int, n: nat)
    requires d <= z.lastDay && FirstFrom(e, z, after, d, n).Some?
    ensures var t := FirstFrom(e, z, after, d, n).value;
            exists c, h, m :: FireInDays(e, z, after, d, n, c, h, m) && z.resolve(c, h, m) == t
    decreases n
  {
    if DayMatches(e, z.calendar(d)) && FirstOnDay(e, z, d, after, 0).Some? {
      DayScan(e, z, d, after, 0);
      var g, m :| FirstTick(e, z, d, after, 0, g, m) && z.resolve(d, g, m) == FirstOnDay(e, z, d, after, 0).value;
      assert FireInDays(e, z, after, d, n, d, g, m);
    } else {
      ResultFires(e, z, after, d + 1, n - 1);
      var c, h, m :| FireInDays(e, z, after, d + 1, n - 1, c, h, m) &&
                     z.resolve(c, h, m) == FirstFrom(e, z, after, d, n).value;
      assert FireInDays(e, z, after, d, n, c, h, m);
    }
  }

  lemma NextFires(e: CronExpr, z: Zone, after: int) returns (c: int, h: int, m: int)
    requires z.dateOf(after) <= z.lastDay && NextAfter(e, z, after).Some?
    ensures Matches(e, z, c, h, m) && z.dateOf(after) <= c && z.resolve(c, h, m) == NextAfter(e, z, after).value
  {
    var d, n := z.dateOf(after), SEARCH_HORIZON_DAYS;
    ResultFires(e, z, after, d, n);
    c, h, m :| FireInDays(e, z, after, d, n, c, h, m) && z.resolve(c, h, m) == NextAfter(e, z, after).value;
  }

  /** A later fire that the search does not return. */
  ghost predicate PassesOver(e: CronExpr, z: Zone, after: int, lost: int) {
    IsFire(e, z, lost) && after < lost && NextAfter(e, z, after) != Some(lost)
  }

  ghost predicate NotFrom(e: CronExpr, z: Zone, d: int, lost: int) {
    forall c, h, m :: Matches(e, z, c, h, m) && d <= c ==> z.resolve(c, h, m) != lost
  }

  /** What matches on no searched day is not found. */
  lemma NotFound(e: CronExpr, z: Zone, after: int, d: int, lost: int)
    requires z.dateOf(after) == d <= z.lastDay && IsFire(e, z, lost) && after < lost
    requires NotFrom(e, z, d, lost)
    ensures PassesOver(e, z, after, lost)
  {
    if NextAfter(e, z, after).Some? {
      var c, h, m := NextFires(e, z, after);
    }
  }

  /** A search that starts on day `d`, or the day before without finding anything there. */
  lemma SearchFindsAt(e: CronExpr, z: Zone, after: int, from: int, n: nat, d: int, t: int)
    requires n > 1 && d <= z.lastDay && DayMatches(e, z.calendar(d)) && FirstOnDay(e, z, d, after, 0) == Some(t)
    requires from == d || (from == d - 1 && FirstOnDay(e, z, from, after, 0) == None)
    ensures FirstFrom(e, z, after, from, n) == Some(t)
  {
    assert FirstFrom(e, z, after, d, n - 1) == Some(t);
  }

  /** The search returns the least instant strictly after `after` that the expression fires at,
      among all its fires; it returns nothing exactly when no fire past `after` lies on a day of
      the search horizon. */
  ghost predicate FindsLeast(e: CronExpr, z: Zone, after: int) {
    match NextAfter(e, z, after)
    case Some(t) => IsFire(e, z, t) && t > after && forall u :: IsFire(e, z, u) && u > after ==> t <= u
    case None => forall c, h, m :: !FireInDays(e, z, after, z.dateOf(after), SEARCH_HORIZON_DAYS, c, h, m)
  }

  lemma SearchableFindsLeast(e: CronExpr, z: Zone, after: int)
    requires Searchable(e, z, after) && z.dateOf(after) <= z.lastDay
    ensures FindsLeast(e, z, after)
  {
    var d := z.dateOf(after);
    SearchResult(e, z, after, d, SEARCH_HORIZON_DAYS);
    if NextAfter(e, z, after).Some? {
      var t := NextAfter(e, z, after).value;
      var c, h, m :| FireInDays(e, z, after, d, SEARCH_HORIZON_DAYS, c, h, m) && z.resolve(c, h, m) == t;
      assert FiresAt(e, z, c, h, m, t);
      forall u | IsFire(e, z, u) && u > after
        ensures t <= u
      {
        var c', h', m' :| FiresAt(e, z, c', h', m', u);
        assert StartIsSound(z, after, c', h', m');
      }
    }
  }

  // ---- aligned zones are searchable --------------------------------------

  lemma AlignedFirstLeads(e: CronExpr, z: Zone, d: int, after: int)
    requires HourAligned(z)
    ensures FirstLeads(e, z, d, after)
  {
    forall g, m, f, k | FirstTick(e, z, d, after, 0, g, m) && Candidate(e, z, d, after, 0, f, k)
      ensures z.resolve(d, g, m) <= z.resolve(d, f, k)
    {
      assert MinutesInOrder(z, d, g, m) && MinutesInOrder(z, d, g, k) && MinutesInOrder(z, d, f, k);
      if g < f {
        assert HoursInOrder(z, d, g, f) && HoursAgree(z, d, g, f, k);
        if z.resolve(d, g, 0) == z.resolve(d, f, 0) && Contains(e.hours, g) {
          assert Candidate(e, z, d, after, 0, g, k);
        }
      }
    }
  }

  lemma EarlierDayFirst(z: Zone, d: int, g: int, k: int, c: int, h: int, m: int)
    requires HourAligned(z) && d < c && 0 <= g < 24 && 0 <= k < 60 && 0 <= h < 24 && 0 <= m < 60
    ensures z.resolve(d, g, k) + MINUTE <= z.resolve(c, h, m)
  {
    assert DaysInOrder(z, d, c, g, h) && MinutesInOrder(z, d, g, k) && MinutesInOrder(z, c, h, m);
  }

  lemma AlignedIsSearchable(e: CronExpr, z: Zone, after: int)
    requires HourAligned(z)
    ensures Searchable(e, z, after)
  {
    forall d
      ensures FirstLeads(e, z, d, after)
    {
      AlignedFirstLeads(e, z, d, after);
    }
    forall c, g, k, d, h, m
      ensures DayLeads(z, c, g, k, d, h, m)
    {
      if c < d && 0 <= g < 24 && 0 <= k < 60 && 0 <= h < 24 && 0 <= m < 60 {
        EarlierDayFirst(z, c, g, k, d, h, m);
      }
    }
  }

  /** On aligned zones the search is right from every instant. */
  lemma NextIsLeast(e: CronExpr, z: Zone, after: int)
    requires HourAligned(z) && z.dateOf(after) <= z.lastDay
    ensures FindsLeast(e, z, after)
  {
    AlignedIsSearchable(e, z, after);
    SearchableFindsLeast(e, z, after);
  }

  /** Distinct fires are at least a minute apart. */
  lemma FiresApart(e: CronExpr, z: Zone, t: int, u: int)
    requires HourAligned(z) && IsFire(e, z, t) && IsFire(e, z, u) && t < u
    ensures t + MINUTE <= u
  {
    var c, g, k :| FiresAt(e, z, c, g, k, t);
    var d, h, m :| FiresAt(e, z, d, h, m, u);
    if c < d {
      EarlierDayFirst(z, c, g, k, d, h, m);
    } else if d < c {
      EarlierDayFirst(z, d, h, m, c, g, k);
    } else {
      assert MinutesInOrder(z, c, g, k) && MinutesInOrder(z, d, h, m);
      assert HoursInOrder(z, c, g, h) && HoursInOrder(z, c, h, g);
    }
  }

  /** A fire not later than `now` is on a day not later than the date of `now`. */
  lemma FireDayBounded(e: CronExpr, z: Zone, c: int, h: int, m: int, now: int)
    requires HourAligned(z) && Matches(e, z, c, h, m) && z.resolve(c, h, m) <= now
    ensures c <= z.dateOf(now)
  {
    assert DatesInOrder(z, z.resolve(c, h, m), now);
  }

  /** If some fire lies in `(after, now]` and the horizon reaches the date of `now`, the search
      does not give up. */
  lemma HorizonReaches(e: CronExpr, z: Zone, after: int, now: int, t: int)
    requires HourAligned(z) && z.dateOf(now) <= z.lastDay && after <= now
    requires z.dateOf(now) < z.dateOf(after) + SEARCH_HORIZON_DAYS
    requires IsFire(e, z, t) && after < t <= now
    ensures NextAfter(e, z, after).Some? && NextAfter(e, z, after).value <= t
  {
    assert DatesInOrder(z, after, now);
    NextIsLeast(e, z, after);
    var c, h, m :| FiresAt(e, z, c, h, m, t);
    FireDayBounded(e, z, c, h, m, now);
    assert StartIsSound(z, after, c, h, m);
    assert FireInDays(e, z, after, z.dateOf(after), SEARCH_HORIZON_DAYS, c, h, m);
  }

  /** The answer of the search lies on one of the searched days. */
  lemma AnswerInHorizon(e: CronExpr, z: Zone, after: int, t: int) returns (c: int, h: int, m: int)
    requires HourAligned(z) && z.dateOf(after) <= z.lastDay && NextAfter(e, z, after) == Some(t)
    ensures FireInDays(e, z, after, z.dateOf(after), SEARCH_HORIZON_DAYS, c, h, m) && z.resolve(c, h, m) == t
  {
    AlignedIsSearchable(e, z, after);
    SearchResult(e, z, after, z.dateOf(after), SEARCH_HORIZON_DAYS);
    c, h, m :| FireInDays(e, z, after, z.dateOf(after), SEARCH_HORIZON_DAYS, c, h, m) && z.resolve(c, h, m) == t;
  }

  lemma LaterFindsToo(e: CronExpr, z: Zone, after: int, later: int, t: int)
    requires HourAligned(z) && z.dateOf(later) <= z.lastDay
    requires NextAfter(e, z, after) == Some(t) && after <= later < t
    ensures NextAfter(e, z, later).Some?
  {
    assert DatesInOrder(z, after, later);
    var c, h, m := AnswerInHorizon(e, z, after, t);
    assert StartIsSound(z, later, c, h, m);
    assert FireInDays(e, z, later, z.dateOf(later), SEARCH_HORIZON_DAYS, c, h, m);
    NextIsLeast(e, z, later);
  }

  /** Asking later, but before the answer, gives the same answer. */
  lemma NextIsStable(e: CronExpr, z: Zone, after: int, later: int, t: int)
    requires HourAligned(z) && z.dateOf(later) <= z.lastDay
    requires NextAfter(e, z, after) == Some(t) && after <= later < t
    ensures NextAfter(e, z, later) == Some(t)
  {
    assert DatesInOrder(z, after, later);
    NextIsLeast(e, z, after);
    LaterFindsToo(e, z, after, later, t);
    NextIsLeast(e, z, later);
  }

  /** Less than a minute before a fire there is no other, so the search finds that one. */
  lemma NextWithinMinute(e: CronExpr, z: Zone, after: int, t: int)
    requires HourAligned(z) && z.dateOf(t) <= z.lastDay
    requires IsFire(e, z, t) && t - MINUTE <= after < t
    ensures NextAfter(e, z, after) == Some(t)
  {
    assert DatesInOrder(z, after, t);
    HorizonReaches(e, z, after, t, t);
    NextIsLeast(e, z, after);
    var u := NextAfter(e, z, after).value;
    if u < t {
      FiresApart(e, z, u, t);
    }
  }
}
