/** What the timer heap promises over time: the windowed scan loses nothing, waking late and
    noticing a clock jump declare the same fires, and over a whole run every fire is declared at
    most once, and exactly once when every wake is prompt. */
module CronRuns {
  import opened Wrappers
  import opened CronField
  import opened CronSchedule
  import opened CronHeap
  import opened CronZones

  // ---- the windowed scan -------------------------------------------------

  /** A fire in `(from, now]` that the window, or the on-time tolerance, still admits. */
  ghost predicate Missed(e: CronExpr, z: Zone, window: nat, now: int, from: int, t: int) {
    IsFire(e, z, t) && from < t <= now && Recent(window, now, t)
  }

  /** No fire lies on a day of the search horizon of `now`. */
  ghost predicate NothingAhead(e: CronExpr, z: Zone, now: int) {
    forall c, h, m :: !FireInDays(e, z, now, z.dateOf(now), SEARCH_HORIZON_DAYS, c, h, m)
  }

  /** A place from which the scan searches, if it gets there: its start, or a fire. */
  ghost predicate ScanPoint(e: CronExpr, z: Zone, start: int, now: int, f: int) {
    start <= f <= now && (f == start || IsFire(e, z, f))
  }

  /** At `f` the search gives up, although `u` comes later. */
  ghost predicate GivesUpBefore(e: CronExpr, z: Zone, start: int, now: int, f: int, u: int) {
    ScanPoint(e, z, start, now, f) && f < u && NothingAhead(e, z, f)
  }

  /** A missed fire that no place lies before at which the search gives up. */
  ghost predicate Reached(e: CronExpr, z: Zone, window: nat, now: int, start: int, u: int) {
    Missed(e, z, window, now, start, u) && forall f :: !GivesUpBefore(e, z, start, now, f, u)
  }

  /** `r` is the latest reached fire. */
  ghost predicate LatestReached(e: CronExpr, z: Zone, window: nat, now: int, start: int, r: Option<int>) {
    && (r.Some? ==> Reached(e, z, window, now, start, r.value))
    && (forall u :: Reached(e, z, window, now, start, u) ==> r.Some? && u <= r.value)
  }

  /** `r` is the latest missed fire. */
  ghost predicate LatestMissed(e: CronExpr, z: Zone, window: nat, now: int, from: int, r: Option<int>) {
    && (r.Some? ==> Missed(e, z, window, now, from, r.value))
    && (forall u :: Missed(e, z, window, now, from, u) ==> r.Some? && u <= r.value)
  }

  lemma {:induction false} ScanKeepsBest(e: CronExpr, z: Zone, window: nat, now: int, cursor: int, best: Option<int>)
    ensures var r := ScanFrom(e, z, window, now, cursor, None);
            ScanFrom(e, z, window, now, cursor, best) == if r.Some? then r else best
    decreases if cursor < now then now - cursor else 0
  {
    var next := NextAfter(e, z, cursor);
    if next.Some? && next.value <= now {
      ScanKeepsBest(e, z, window, now, next.value, best);
      ScanKeepsBest(e, z, window, now, next.value, Some(next.value));
    }
  }

  /** The search finds nothing exactly where nothing is ahead. */
  lemma SearchGivesUp(e: CronExpr, z: Zone, now: int)
    requires HourAligned(z) && z.dateOf(now) <= z.lastDay
    ensures NextAfter(e, z, now) == None <==> NothingAhead(e, z, now)
  {
    NextIsLeast(e, z, now);
    if NextAfter(e, z, now).Some? {
      var c, h, m := AnswerInHorizon(e, z, now, NextAfter(e, z, now).value);
    }
  }

  /** Where nothing is ahead, what follows lies a whole search horizon later. */
  lemma AheadIsFar(e: CronExpr, z: Zone, now: int, u: int)
    requires HourAligned(z) && NothingAhead(e, z, now) && IsFire(e, z, u) && now < u
    ensures z.dateOf(u) >= z.dateOf(now) + SEARCH_HORIZON_DAYS
  {
    var c, h, m :| FiresAt(e, z, c, h, m, u);
    assert StartIsSound(z, now, c, h, m);
    assert !FireInDays(e, z, now, z.dateOf(now), SEARCH_HORIZON_DAYS, c, h, m);
  }

  lemma ScanEnds(e: CronExpr, z: Zone, window: nat, now: int, cursor: int)
    requires HourAligned(z) && z.dateOf(now) <= z.lastDay
    requires cursor > now || NextAfter(e, z, cursor).None? || NextAfter(e, z, cursor).value > now
    ensures LatestReached(e, z, window, now, cursor, None)
  {
    if cursor <= now {
      assert DatesInOrder(z, cursor, now);
      SearchGivesUp(e, z, cursor);
      NextIsLeast(e, z, cursor);
      forall u
        ensures !Reached(e, z, window, now, cursor, u)
      {
        if IsFire(e, z, u) && cursor < u <= now {
          assert GivesUpBefore(e, z, cursor, now, cursor, u);
        }
      }
    }
  }

  /** From one fire to the next the same fires are reached, but for the one just met. */
  lemma ReachedMovesOn(e: CronExpr, z: Zone, window: nat, now: int, cursor: int, fire: int, u: int)
    requires HourAligned(z) && z.dateOf(now) <= z.lastDay
    requires NextAfter(e, z, cursor) == Some(fire) && fire <= now
    ensures Reached(e, z, window, now, cursor, u) <==>
            (u == fire && Recent(window, now, fire)) || Reached(e, z, window, now, fire, u)
  {
    assert DatesInOrder(z, cursor, now);
    NextIsLeast(e, z, cursor);
    SearchGivesUp(e, z, cursor);
    forall f
      ensures GivesUpBefore(e, z, cursor, now, f, u) <==> GivesUpBefore(e, z, fire, now, f, u)
    {
      if GivesUpBefore(e, z, cursor, now, f, u) {
        assert f != cursor && fire <= f;
      }
    }
    if u == fire {
      assert forall f :: !GivesUpBefore(e, z, fire, now, f, u);
    }
  }

  lemma {:induction false} ScanReaches(e: CronExpr, z: Zone, window: nat, now: int, cursor: int)
    requires HourAligned(z) && z.dateOf(now) <= z.lastDay
    ensures LatestReached(e, z, window, now, cursor, ScanFrom(e, z, window, now, cursor, None))
    decreases if cursor < now then now - cursor else 0
  {
    var next := NextAfter(e, z, cursor);
    if cursor > now || next.None? || next.value > now {
      ScanEnds(e, z, window, now, cursor);
    } else {
      var fire := next.value;
      ScanReaches(e, z, window, now, fire);
      ScanKeepsBest(e, z, window, now, fire, Some(fire));
      var r, later := ScanFrom(e, z, window, now, cursor, None), ScanFrom(e, z, window, now, fire, None);
      assert r == if later.Some? then later else if Recent(window, now, fire) then Some(fire) else None;
      forall u
        ensures Reached(e, z, window, now, cursor, u) ==> r.Some? && u <= r.value
        ensures r == Some(u) ==> Reached(e, z, window, now, cursor, u)
      {
        ReachedMovesOn(e, z, window, now, cursor, fire, u);
      }
    }
  }

  /** Whatever the scan returns, it returns the latest of the missed fires it can reach, although it
      starts at `now` less the window less the tolerance. */
  lemma WindowedScanReaches(e: CronExpr, z: Zone, window: nat, now: int, lastSeen: int)
    requires HourAligned(z) && z.dateOf(now) <= z.lastDay && WindowEnabled(window)
    ensures LatestReached(e, z, window, now, ScanStart(window, now, lastSeen),
        MostRecentMissed(e, z, window, now, lastSeen))
    ensures forall u :: Missed(e, z, window, now, lastSeen, u) <==>
        Missed(e, z, window, now, ScanStart(window, now, lastSeen), u)
  {
    ScanReaches(e, z, window, now, ScanStart(window, now, lastSeen));
  }

  ghost predicate Overlooked(e: CronExpr, z: Zone, window: nat, now: int, lastSeen: int, f: int, u: int) {
    Missed(e, z, window, now, lastSeen, u) && GivesUpBefore(e, z, ScanStart(window, now, lastSeen), now, f, u)
  }

  /** Exactly: the scan returns the latest of all fires in `(lastSeen, now]` that are recent enough if
      and only if neither its start nor a fire behind it has nothing ahead for a whole search
      horizon and a missed fire after that. */
  lemma WindowedScanLosesNothing(e: CronExpr, z: Zone, window: nat, now: int, lastSeen: int)
    requires HourAligned(z) && z.dateOf(now) <= z.lastDay && WindowEnabled(window)
    ensures LatestMissed(e, z, window, now, lastSeen, MostRecentMissed(e, z, window, now, lastSeen)) <==>
            forall f, u :: !Overlooked(e, z, window, now, lastSeen, f, u)
  {
    var start, r := ScanStart(window, now, lastSeen), MostRecentMissed(e, z, window, now, lastSeen);
    WindowedScanReaches(e, z, window, now, lastSeen);
    if LatestMissed(e, z, window, now, lastSeen, r) {
      forall f, u
        ensures !Overlooked(e, z, window, now, lastSeen, f, u)
      {
        if Missed(e, z, window, now, lastSeen, u) {
          assert u <= r.value && !GivesUpBefore(e, z, start, now, f, r.value);
        }
      }
    }
    if forall f, u :: !Overlooked(e, z, window, now, lastSeen, f, u) {
      forall u | Missed(e, z, window, now, lastSeen, u)
        ensures Reached(e, z, window, now, start, u)
      {
        forall f
          ensures !GivesUpBefore(e, z, start, now, f, u)
        {
          assert !Overlooked(e, z, window, now, lastSeen, f, u);
        }
      }
    }
  }

  /** Whatever is declared is a fire of the scanned span, recent enough to declare. */
  lemma MissedIsFire(e: CronExpr, z: Zone, window: nat, now: int, lastSeen: int)
    requires HourAligned(z) && z.dateOf(now) <= z.lastDay
    requires MostRecentMissed(e, z, window, now, lastSeen).Some?
    ensures Missed(e, z, window, now, lastSeen, MostRecentMissed(e, z, window, now, lastSeen).value)
  {
    WindowedScanReaches(e, z, window, now, lastSeen);
  }

  // ---- what a pop declares -----------------------------------------------

  /** In nanoseconds: a minute and a second. */
  const SIXTY_SECONDS := 60_000_000_000
  const ONE_SECOND := 1_000_000_000

  /** Late, but not too late to catch up. */
  predicate StillCaughtUp(window: nat, lateness: int) {
    0 < window <= MAX_SIGNED && (lateness <= SIXTY_SECONDS || lateness <= window)
  }

  /** What popping the deadline of a cron order declares: up to a minute late the deadline itself, as on
      time; later a fire of the order not before the deadline and not after now that the window still
      admits, marked as a catch-up exactly when it too is over a minute late, or nothing. */
  lemma DeclaredMeans(o: Order, z: Zone, deadline: int, now: int)
    requires o.trigger.Cron? && HourAligned(z) && z.dateOf(now) <= z.lastDay
    ensures now - deadline <= SIXTY_SECONDS ==> DueFire(o, z, deadline, now) == Some(Fire(o.name, deadline, false))
    ensures now - deadline > SIXTY_SECONDS ==>
        match DueFire(o, z, deadline, now)
        case None => true
        case Some(f) =>
          && f.order == o.name && IsFire(o.trigger.expr, z, f.scheduled)
          && deadline - ONE_SECOND < f.scheduled <= now
          && StillCaughtUp(o.catchUpWindow, now - f.scheduled)
          && (f.catchUp <==> now - f.scheduled > SIXTY_SECONDS)
  {
    var scanFrom := if deadline - SECOND < TS_MIN then deadline else deadline - SECOND;
    if MostRecentMissed(o.trigger.expr, z, o.catchUpWindow, now, scanFrom).Some? {
      MissedIsFire(o.trigger.expr, z, o.catchUpWindow, now, scanFrom);
    }
  }

  /** And no later one is passed over: any fire the window still admits is declared, or one after it,
      unless the search gives up on the way there. */
  lemma DeclaresLatest(o: Order, z: Zone, deadline: int, now: int, u: int)
    requires o.trigger.Cron? && HourAligned(z) && z.dateOf(now) <= z.lastDay && TS_MIN + ONE_SECOND <= deadline
    requires now - deadline > SIXTY_SECONDS && StillCaughtUp(o.catchUpWindow, now - u)
    requires IsFire(o.trigger.expr, z, u) && deadline <= u <= now
    requires forall f :: deadline - ONE_SECOND <= f < u ==> !NothingAhead(o.trigger.expr, z, f)
    ensures DueFire(o, z, deadline, now).Some? && u <= DueFire(o, z, deadline, now).value.scheduled
  {
    var e, start := o.trigger.expr, ScanStart(o.catchUpWindow, now, deadline - SECOND);
    WindowedScanReaches(e, z, o.catchUpWindow, now, deadline - SECOND);
    assert Missed(e, z, o.catchUpWindow, now, deadline - SECOND, u);
    forall f
      ensures !GivesUpBefore(e, z, start, now, f, u)
    {
    }
    assert Reached(e, z, o.catchUpWindow, now, start, u);
  }

  // ---- oversleeping and jumping agree ------------------------------------

  /** Both scans of a missed deadline pass through the deadline, or start at the same place. */
  lemma ScansMeet(e: CronExpr, z: Zone, window: nat, now: int, lastSeen: int, deadline: int)
    requires HourAligned(z) && z.dateOf(now) <= z.lastDay && WindowEnabled(window)
    requires NextAfter(e, z, lastSeen) == Some(deadline) && deadline <= now && TS_MIN + SECOND <= deadline
    ensures MostRecentMissed(e, z, window, now, lastSeen) == MostRecentMissed(e, z, window, now, deadline - SECOND)
  {
    var late, jump := ScanStart(window, now, deadline - SECOND), ScanStart(window, now, lastSeen);
    assert DatesInOrder(z, lastSeen, now) && DatesInOrder(z, deadline, now);
    NextIsLeast(e, z, lastSeen);
    if jump < deadline {
      assert DatesInOrder(z, jump, now);
      NextIsStable(e, z, lastSeen, jump, deadline);
      NextWithinMinute(e, z, late, deadline);
    }
  }

  /** Where the two paths part: a deadline at most the tolerance late is declared by the one
      without asking the window, and the other prefers a fire at `now` itself. */
  predicate PathsAgree(window: nat, deadline: int, now: int, firesNow: bool) {
    now - deadline > ON_TIME_TOLERANCE || (WindowEnabled(window) && !(now == deadline + ON_TIME_TOLERANCE && firesNow))
  }

  /** The scan that has reached an on-time deadline stops there, unless a second fire is due at
      `now`. */
  lemma ScanEndsOnTime(e: CronExpr, z: Zone, window: nat, now: int, deadline: int)
    requires HourAligned(z) && z.dateOf(now) <= z.lastDay
    requires IsFire(e, z, deadline) && deadline <= now <= deadline + ON_TIME_TOLERANCE
    ensures ScanFrom(e, z, window, now, deadline, Some(deadline)) ==
            Some(if now == deadline + ON_TIME_TOLERANCE && IsFire(e, z, now) then now else deadline)
  {
    assert DatesInOrder(z, deadline, now);
    if now == deadline + ON_TIME_TOLERANCE && IsFire(e, z, now) {
      NextWithinMinute(e, z, deadline, now);
      assert ScanFrom(e, z, window, now, now, Some(now)) == Some(now);
    } else {
      NextIsLeast(e, z, deadline);
      var next := NextAfter(e, z, deadline);
      if next.Some? && next.value <= now {
        FiresApart(e, z, deadline, next.value);
      }
    }
  }

  /** An on-time deadline is what the jump path picks, unless a second fire is due at `now`. */
  lemma JumpPicksOnTime(e: CronExpr, z: Zone, window: nat, now: int, lastSeen: int, deadline: int)
    requires HourAligned(z) && z.dateOf(now) <= z.lastDay && WindowEnabled(window)
    requires NextAfter(e, z, lastSeen) == Some(deadline) && deadline <= now <= deadline + ON_TIME_TOLERANCE
    ensures MostRecentMissed(e, z, window, now, lastSeen) ==
            Some(if now == deadline + ON_TIME_TOLERANCE && IsFire(e, z, now) then now else deadline)
  {
    var start := ScanStart(window, now, lastSeen);
    assert DatesInOrder(z, lastSeen, now) && DatesInOrder(z, start, now);
    NextIsStable(e, z, lastSeen, start, deadline);
    NextIsLeast(e, z, lastSeen);
    ScanEndsOnTime(e, z, window, now, deadline);
  }

  /** For a due cron order the two paths declare the very same fire, with the same flag, exactly
      in the cases `PathsAgree` names. */
  lemma OversleepIsJump(o: Order, z: Zone, now: int, lastSeen: int, deadline: int)
    requires o.trigger.Cron? && HourAligned(z) && z.dateOf(now) <= z.lastDay
    requires NextAfter(o.trigger.expr, z, lastSeen) == Some(deadline) && deadline <= now && TS_MIN + SECOND <= deadline
    ensures DueFire(o, z, deadline, now) == JumpFire(o, z, now, lastSeen) <==>
            PathsAgree(o.catchUpWindow, deadline, now, IsFire(o.trigger.expr, z, now))
  {
    var e, window := o.trigger.expr, o.catchUpWindow;
    if WindowEnabled(window) {
      if now - deadline <= ON_TIME_TOLERANCE {
        JumpPicksOnTime(e, z, window, now, lastSeen, deadline);
      } else {
        ScansMeet(e, z, window, now, lastSeen, deadline);
      }
    }
  }

  /** For an order that is not due, the jump path declares nothing and finds the same deadline. */
  lemma JumpKeepsPending(o: Order, z: Zone, now: int, lastSeen: int, deadline: int)
    requires o.trigger.Cron? && HourAligned(z) && z.dateOf(now) <= z.lastDay
    requires NextAfter(o.trigger.expr, z, lastSeen) == Some(deadline) && lastSeen <= now < deadline
    ensures JumpFire(o, z, now, lastSeen) == None
    ensures Rescheduled(o, z, now) == Some(deadline)
  {
    var e, window := o.trigger.expr, o.catchUpWindow;
    NextIsStable(e, z, lastSeen, now, deadline);
    if WindowEnabled(window) {
      var start := ScanStart(window, now, lastSeen);
      assert DatesInOrder(z, start, now);
      NextIsStable(e, z, lastSeen, start, deadline);
    }
  }

  /** Every armed deadline is the next fire after `lastSeen`. */
  ghost predicate InStep(entries: Entries, orders: seq<Order>, z: Zone, lastSeen: int) {
    ValidEntries(entries, orders) && forall idx :: idx in entries ==> OrderInStep(entries, orders, z, lastSeen, idx)
  }

  ghost predicate OrderInStep(entries: Entries, orders: seq<Order>, z: Zone, lastSeen: int, idx: nat) {
    && idx in entries && idx < |orders| && orders[idx].trigger.Cron?
    && NextAfter(orders[idx].trigger.expr, z, lastSeen) == Some(entries[idx])
    && TS_MIN + SECOND <= entries[idx]
  }

  ghost predicate OrderAgrees(entries: Entries, orders: seq<Order>, z: Zone, now: int, idx: nat)
    requires idx in entries && idx < |orders| && orders[idx].trigger.Cron?
  {
    IsDue(entries, now, idx) ==>
      PathsAgree(orders[idx].catchUpWindow, entries[idx], now, IsFire(orders[idx].trigger.expr, z, now))
  }

  ghost predicate AllArmed(entries: Entries, orders: seq<Order>) {
    forall idx: nat :: idx < |orders| && orders[idx].trigger.Cron? ==> idx in entries
  }

  /** The two paths declare the same for one order, and leave it at the same deadline. */
  ghost predicate SameFire(due: map<nat, Fire>, jump: map<nat, Fire>, idx: nat) {
    (idx in due <==> idx in jump) && (idx in due && idx in jump ==> due[idx] == jump[idx])
  }

  ghost predicate SameDeadline(late: Entries, jumped: Entries, idx: nat) {
    (idx in late <==> idx in jumped) && (idx in late && idx in jumped ==> late[idx] == jumped[idx])
  }

  lemma OrderPathsAgree(entries: Entries, orders: seq<Order>, z: Zone, now: int, lastSeen: int, idx: nat)
    requires HourAligned(z) && z.dateOf(now) <= z.lastDay && lastSeen <= now
    requires InStep(entries, orders, z, lastSeen) && idx in entries
    ensures SameFire(DueFires(entries, orders, z, now), JumpFires(orders, z, now, lastSeen), idx) <==>
            OrderAgrees(entries, orders, z, now, idx)
    ensures SameDeadline(AfterDue(entries, orders, z, now), AfterJump(orders, z, now), idx)
  {
    assert OrderInStep(entries, orders, z, lastSeen, idx);
    if IsDue(entries, now, idx) {
      OversleepIsJump(orders[idx], z, now, lastSeen, entries[idx]);
    } else {
      JumpKeepsPending(orders[idx], z, now, lastSeen, entries[idx]);
    }
  }

  /** A cron order that has gone quiet: nothing in the heap reminds of it. */
  ghost predicate Unarmed(entries: Entries, orders: seq<Order>, idx: nat) {
    idx < |orders| && orders[idx].trigger.Cron? && idx !in entries
  }

  /** No missed fire can be reached. */
  ghost predicate NothingReached(e: CronExpr, z: Zone, window: nat, now: int, lastSeen: int) {
    WindowEnabled(window) && lastSeen < now ==>
      forall u :: !Reached(e, z, window, now, ScanStart(window, now, lastSeen), u)
  }

  /** What the jump path does with an order that waking late never looks at. */
  lemma JumpRevives(o: Order, z: Zone, now: int, lastSeen: int)
    requires o.trigger.Cron? && HourAligned(z) && z.dateOf(now) <= z.lastDay && lastSeen <= now
    ensures JumpFire(o, z, now, lastSeen) == None <==> NothingReached(o.trigger.expr, z, o.catchUpWindow, now, lastSeen)
    ensures Rescheduled(o, z, now) == None <==> NothingAhead(o.trigger.expr, z, now)
  {
    var e, window := o.trigger.expr, o.catchUpWindow;
    SearchGivesUp(e, z, now);
    if WindowEnabled(window) && lastSeen < now {
      WindowedScanReaches(e, z, window, now, lastSeen);
    }
  }

  lemma UnarmedPaths(entries: Entries, orders: seq<Order>, z: Zone, now: int, lastSeen: int, idx: nat)
    requires HourAligned(z) && z.dateOf(now) <= z.lastDay && lastSeen <= now
    requires ValidEntries(entries, orders) && Unarmed(entries, orders, idx)
    ensures SameFire(DueFires(entries, orders, z, now), JumpFires(orders, z, now, lastSeen), idx) <==>
            NothingReached(orders[idx].trigger.expr, z, orders[idx].catchUpWindow, now, lastSeen)
    ensures SameDeadline(AfterDue(entries, orders, z, now), AfterJump(orders, z, now), idx) <==>
            NothingAhead(orders[idx].trigger.expr, z, now)
  {
    JumpRevives(orders[idx], z, now, lastSeen);
  }

  ghost predicate FiresAgree(entries: Entries, orders: seq<Order>, z: Zone, now: int, lastSeen: int, idx: nat)
    requires ValidEntries(entries, orders)
  {
    && (idx in entries ==> OrderAgrees(entries, orders, z, now, idx))
    && (Unarmed(entries, orders, idx) ==>
          NothingReached(orders[idx].trigger.expr, z, orders[idx].catchUpWindow, now, lastSeen))
  }

  ghost predicate DeadlinesAgree(entries: Entries, orders: seq<Order>, z: Zone, now: int, idx: nat) {
    Unarmed(entries, orders, idx) ==> NothingAhead(orders[idx].trigger.expr, z, now)
  }

  lemma EachOrderAgrees(entries: Entries, orders: seq<Order>, z: Zone, now: int, lastSeen: int, idx: nat)
    requires HourAligned(z) && z.dateOf(now) <= z.lastDay && lastSeen <= now && InStep(entries, orders, z, lastSeen)
    ensures SameFire(DueFires(entries, orders, z, now), JumpFires(orders, z, now, lastSeen), idx) <==>
            FiresAgree(entries, orders, z, now, lastSeen, idx)
    ensures SameDeadline(AfterDue(entries, orders, z, now), AfterJump(orders, z, now), idx) <==>
            DeadlinesAgree(entries, orders, z, now, idx)
  {
    if idx in entries {
      OrderPathsAgree(entries, orders, z, now, lastSeen, idx);
    } else if Unarmed(entries, orders, idx) {
      UnarmedPaths(entries, orders, z, now, lastSeen, idx);
    }
  }

  /** Waking at `now` after oversleeping, and recomputing at `now` after a detected jump, with every
      armed deadline at its next fire. They leave the same deadlines exactly when no order that has
      gone quiet has a fire ahead, and they declare the same fires with the same flags exactly when
      no due order is in one of the parting cases and no quiet order has a missed fire that the scan
      can reach. */
  lemma OversleepAgreesWithJump(entries: Entries, orders: seq<Order>, z: Zone, now: int, lastSeen: int)
    requires HourAligned(z) && z.dateOf(now) <= z.lastDay && lastSeen <= now && InStep(entries, orders, z, lastSeen)
    ensures AfterDue(entries, orders, z, now) == AfterJump(orders, z, now) <==>
            forall idx: nat :: idx < |orders| ==> DeadlinesAgree(entries, orders, z, now, idx)
    ensures DueFires(entries, orders, z, now) == JumpFires(orders, z, now, lastSeen) <==>
            forall idx: nat :: idx < |orders| ==> FiresAgree(entries, orders, z, now, lastSeen, idx)
  {
    var due, jump := DueFires(entries, orders, z, now), JumpFires(orders, z, now, lastSeen);
    var late, jumped := AfterDue(entries, orders, z, now), AfterJump(orders, z, now);
    forall idx: nat | idx < |orders|
      ensures SameFire(due, jump, idx) <==> FiresAgree(entries, orders, z, now, lastSeen, idx)
      ensures SameDeadline(late, jumped, idx) <==> DeadlinesAgree(entries, orders, z, now, idx)
    {
      EachOrderAgrees(entries, orders, z, now, lastSeen, idx);
    }
    SameEverywhere(due, jump, |orders|);
    SameDeadlines(late, jumped, |orders|);
  }

  lemma SameEverywhere(due: map<nat, Fire>, jump: map<nat, Fire>, n: nat)
    requires forall idx :: idx in due || idx in jump ==> idx < n
    ensures due == jump <==> forall idx: nat :: idx < n ==> SameFire(due, jump, idx)
  {
    if forall idx: nat :: idx < n ==> SameFire(due, jump, idx) {
      forall idx: nat
        ensures idx in due <==> idx in jump
        ensures idx in due ==> due[idx] == jump[idx]
      {
        assert idx < n ==> SameFire(due, jump, idx);
      }
      assert due == jump;
    }
  }

  lemma SameDeadlines(late: Entries, jumped: Entries, n: nat)
    requires forall idx :: idx in late || idx in jumped ==> idx < n
    ensures late == jumped <==> forall idx: nat :: idx < n ==> SameDeadline(late, jumped, idx)
  {
    if forall idx: nat :: idx < n ==> SameDeadline(late, jumped, idx) {
      forall idx: nat
        ensures idx in late <==> idx in jumped
        ensures idx in late ==> late[idx] == jumped[idx]
      {
        assert idx < n ==> SameDeadline(late, jumped, idx);
      }
      assert late == jumped;
    }
  }

  // ---- whole runs --------------------------------------------------------

  /** One wake of the daemon: `fire_due`, or `recompute` after a clock jump. */
  datatype Wake = Wake(now: int, jump: bool)

  ghost function FiresAtWake(entries: Entries, orders: seq<Order>, z: Zone, lastSeen: int, w: Wake): map<nat, Fire>
    requires ValidEntries(entries, orders)
  {
    if w.jump then JumpFires(orders, z, w.now, lastSeen) else DueFires(entries, orders, z, w.now)
  }

  ghost function AfterWake(entries: Entries, orders: seq<Order>, z: Zone, w: Wake): (r: Entries)
    requires ValidEntries(entries, orders)
    ensures ValidEntries(r, orders)
  {
    if w.jump then AfterJump(orders, z, w.now) else AfterDue(entries, orders, z, w.now)
  }

  ghost function AfterWakes(entries: Entries, orders: seq<Order>, z: Zone, wakes: seq<Wake>): (r: Entries)
    requires ValidEntries(entries, orders)
    decreases |wakes|
  {
    if wakes == [] then entries else AfterWakes(AfterWake(entries, orders, z, wakes[0]), orders, z, wakes[1..])
  }

  /** The instants declared for one order over a run; `lastSeen` is always the previous wake. */
  ghost function Schedule(entries: Entries, orders: seq<Order>, z: Zone, lastSeen: int, wakes: seq<Wake>,
                          idx: nat): seq<int>
    requires ValidEntries(entries, orders)
    decreases |wakes|
  {
    if wakes == [] then []
    else
      var fires := FiresAtWake(entries, orders, z, lastSeen, wakes[0]);
      DeclaredFor(fires, idx) +
      Schedule(AfterWake(entries, orders, z, wakes[0]), orders, z, wakes[0].now, wakes[1..], idx)
  }

  /** The clock never goes back and stays inside the calendar. */
  ghost predicate Nondecreasing(z: Zone, lastSeen: int, wakes: seq<Wake>)
    decreases |wakes|
  {
    wakes != [] ==>
      lastSeen <= wakes[0].now && z.dateOf(wakes[0].now) <= z.lastDay && Nondecreasing(z, wakes[0].now, wakes[1..])
  }

  function LastWake(lastSeen: int, wakes: seq<Wake>): int {
    if wakes == [] then lastSeen else wakes[|wakes| - 1].now
  }

  /** An armed deadline is a fire still to come. */
  ghost predicate Pending(entries: Entries, orders: seq<Order>, z: Zone, lastSeen: int) {
    ValidEntries(entries, orders) &&
    forall idx :: idx in entries ==> lastSeen < entries[idx] && IsFire(orders[idx].trigger.expr, z, entries[idx])
  }

  /** A wake declares, for an order, a fire after the previous wake and not after this one. */
  lemma WakeDeclaresNew(entries: Entries, orders: seq<Order>, z: Zone, lastSeen: int, w: Wake, idx: nat)
    requires HourAligned(z) && z.dateOf(w.now) <= z.lastDay && Pending(entries, orders, z, lastSeen)
    requires idx in FiresAtWake(entries, orders, z, lastSeen, w)
    ensures FireOf(orders, z, idx, lastSeen, w.now, FiresAtWake(entries, orders, z, lastSeen, w)[idx].scheduled)
  {
    var o, t := orders[idx], FiresAtWake(entries, orders, z, lastSeen, w)[idx].scheduled;
    var e := o.trigger.expr;
    if w.jump {
      MissedIsFire(e, z, o.catchUpWindow, w.now, lastSeen);
    } else if w.now - entries[idx] > ON_TIME_TOLERANCE {
      var from := if entries[idx] - SECOND < TS_MIN then entries[idx] else entries[idx] - SECOND;
      MissedIsFire(e, z, o.catchUpWindow, w.now, from);
      if t < entries[idx] {
        FiresApart(e, z, t, entries[idx]);
      }
    }
  }

  lemma WakeKeepsPending(entries: Entries, orders: seq<Order>, z: Zone, lastSeen: int, w: Wake)
    requires HourAligned(z) && z.dateOf(w.now) <= z.lastDay && Pending(entries, orders, z, lastSeen)
    ensures Pending(AfterWake(entries, orders, z, w), orders, z, w.now)
  {
    var after := AfterWake(entries, orders, z, w);
    forall idx | idx in after
      ensures w.now < after[idx] && IsFire(orders[idx].trigger.expr, z, after[idx])
    {
      NextIsLeast(orders[idx].trigger.expr, z, w.now);
    }
  }

  ghost predicate Increasing(s: seq<int>) {
    forall i, j :: 0 <= i < j < |s| ==> s[i] < s[j]
  }

  /** `t` is a fire of the order in `(from, to]`. */
  ghost predicate FireOf(orders: seq<Order>, z: Zone, idx: nat, from: int, to: int, t: int) {
    idx < |orders| && orders[idx].trigger.Cron? && IsFire(orders[idx].trigger.expr, z, t) && from < t <= to
  }

  ghost predicate DeclaredOnce(s: seq<int>, orders: seq<Order>, z: Zone, idx: nat, from: int, to: int) {
    from <= to && Increasing(s) && forall i :: 0 <= i < |s| ==> FireOf(orders, z, idx, from, to, s[i])
  }

  lemma OneMore(s: seq<int>, orders: seq<Order>, z: Zone, idx: nat, from: int, mid: int, to: int, t: int)
    requires DeclaredOnce(s, orders, z, idx, mid, to) && FireOf(orders, z, idx, from, mid, t)
    ensures DeclaredOnce([t] + s, orders, z, idx, from, to)
  {
    forall i | 0 <= i < |[t] + s|
      ensures FireOf(orders, z, idx, from, to, ([t] + s)[i])
    {
      assert i > 0 ==> FireOf(orders, z, idx, mid, to, s[i - 1]);
    }
  }

  lemma EarlierStart(s: seq<int>, orders: seq<Order>, z: Zone, idx: nat, from: int, mid: int, to: int)
    requires DeclaredOnce(s, orders, z, idx, mid, to) && from <= mid
    ensures DeclaredOnce(s, orders, z, idx, from, to)
  {
    forall i | 0 <= i < |s|
      ensures FireOf(orders, z, idx, from, to, s[i])
    {
      assert FireOf(orders, z, idx, mid, to, s[i]);
    }
  }

  /** Over any run of wakes, late or jumping, no instant is declared twice for an order: the
      declared instants are fires of its expression, strictly increasing, all of the run's span. */
  lemma {:induction false} NothingTwice(entries: Entries, orders: seq<Order>, z: Zone, lastSeen: int, wakes: seq<Wake>,
                                        idx: nat)
    requires HourAligned(z) && Pending(entries, orders, z, lastSeen) && Nondecreasing(z, lastSeen, wakes)
    ensures DeclaredOnce(Schedule(entries, orders, z, lastSeen, wakes, idx), orders, z, idx, lastSeen,
        LastWake(lastSeen, wakes))
    decreases |wakes|
  {
    if wakes != [] {
      var w := wakes[0];
      var after := AfterWake(entries, orders, z, w);
      WakeKeepsPending(entries, orders, z, lastSeen, w);
      NothingTwice(after, orders, z, w.now, wakes[1..], idx);
      var later, to := Schedule(after, orders, z, w.now, wakes[1..], idx), LastWake(lastSeen, wakes);
      assert to == LastWake(w.now, wakes[1..]);
      if idx in FiresAtWake(entries, orders, z, lastSeen, w) {
        WakeDeclaresNew(entries, orders, z, lastSeen, w, idx);
        OneMore(later, orders, z, idx, lastSeen, w.now, to,
            FiresAtWake(entries, orders, z, lastSeen, w)[idx].scheduled);
      } else {
        EarlierStart(later, orders, z, idx, lastSeen, w.now, to);
        assert [] + later == later;
      }
    }
  }

  // ---- prompt runs miss nothing ------------------------------------------

  /** The wake comes before the earliest deadline is a minute old. */
  ghost predicate Prompt(entries: Entries, now: int) {
    forall k :: k in entries ==> now < entries[k] + MINUTE
  }

  ghost predicate AllPrompt(entries: Entries, orders: seq<Order>, z: Zone, wakes: seq<Wake>)
    requires ValidEntries(entries, orders)
    decreases |wakes|
  {
    wakes != [] ==>
      !wakes[0].jump && Prompt(entries, wakes[0].now) &&
          AllPrompt(AfterWake(entries, orders, z, wakes[0]), orders, z, wakes[1..])
  }

  /** `s` is exactly the order's fires in `(from, to]`. */
  ghost predicate AllFires(s: seq<int>, orders: seq<Order>, z: Zone, idx: nat, from: int, to: int) {
    forall t :: t in s <==> FireOf(orders, z, idx, from, to, t)
  }

  function DeclaredFor(fires: map<nat, Fire>, idx: nat): seq<int> {
    if idx in fires then [fires[idx].scheduled] else []
  }

  /** The one fire between two wakes, when the second comes within a minute of it. */
  lemma OnlyDeadlineFires(e: CronExpr, z: Zone, lastSeen: int, now: int, deadline: int, t: int)
    requires HourAligned(z) && z.dateOf(now) <= z.lastDay && lastSeen <= now < deadline + MINUTE
    requires NextAfter(e, z, lastSeen) == Some(deadline)
    ensures IsFire(e, z, t) && lastSeen < t <= now <==> t == deadline && deadline <= now
  {
    assert DatesInOrder(z, lastSeen, now);
    NextIsLeast(e, z, lastSeen);
    if IsFire(e, z, t) && deadline < t {
      FiresApart(e, z, deadline, t);
    }
  }

  /** At a prompt wake an order declares exactly its fires since the previous one. */
  lemma PromptWakeIsExact(entries: Entries, orders: seq<Order>, z: Zone, lastSeen: int, w: Wake, idx: nat)
    requires HourAligned(z) && z.dateOf(w.now) <= z.lastDay && lastSeen <= w.now && !w.jump
    requires InStep(entries, orders, z, lastSeen) && idx in entries && Prompt(entries, w.now)
    ensures AllFires(DeclaredFor(FiresAtWake(entries, orders, z, lastSeen, w), idx), orders, z, idx, lastSeen, w.now)
  {
    assert OrderInStep(entries, orders, z, lastSeen, idx);
    var declared := DeclaredFor(FiresAtWake(entries, orders, z, lastSeen, w), idx);
    assert declared == if entries[idx] <= w.now then [entries[idx]] else [];
    forall t
      ensures t in declared <==> FireOf(orders, z, idx, lastSeen, w.now, t)
    {
      OnlyDeadlineFires(orders[idx].trigger.expr, z, lastSeen, w.now, entries[idx], t);
    }
  }

  lemma FiresJoin(s: seq<int>, later: seq<int>, orders: seq<Order>, z: Zone, idx: nat, from: int, mid: int, to: int)
    requires AllFires(s, orders, z, idx, from, mid) && AllFires(later, orders, z, idx, mid, to) && from <= mid <= to
    ensures AllFires(s + later, orders, z, idx, from, to)
  {
    forall t
      ensures t in s + later <==> FireOf(orders, z, idx, from, to, t)
    {
      assert t in s <==> FireOf(orders, z, idx, from, mid, t);
      assert t in later <==> FireOf(orders, z, idx, mid, to, t);
    }
  }

  lemma WakeKeepsStep(entries: Entries, orders: seq<Order>, z: Zone, lastSeen: int, w: Wake)
    requires HourAligned(z) && z.dateOf(w.now) <= z.lastDay && lastSeen <= w.now && !w.jump
    requires InStep(entries, orders, z, lastSeen)
    ensures InStep(AfterWake(entries, orders, z, w), orders, z, w.now)
  {
    var after := AfterWake(entries, orders, z, w);
    forall idx | idx in after
      ensures OrderInStep(after, orders, z, w.now, idx)
    {
      assert OrderInStep(entries, orders, z, lastSeen, idx);
      if !IsDue(entries, w.now, idx) {
        JumpKeepsPending(orders[idx], z, w.now, lastSeen, entries[idx]);
      }
    }
  }

  lemma {:induction false} QuietStaysQuiet(entries: Entries, orders: seq<Order>, z: Zone, wakes: seq<Wake>, idx: nat)
    requires ValidEntries(entries, orders) && AllPrompt(entries, orders, z, wakes) && idx !in entries
    ensures idx !in AfterWakes(entries, orders, z, wakes)
    decreases |wakes|
  {
    if wakes != [] {
      QuietStaysQuiet(AfterWake(entries, orders, z, wakes[0]), orders, z, wakes[1..], idx);
    }
  }

  lemma ScheduleUnfolds(entries: Entries, orders: seq<Order>, z: Zone, lastSeen: int, wakes: seq<Wake>, idx: nat)
    requires ValidEntries(entries, orders) && wakes != []
    ensures Schedule(entries, orders, z, lastSeen, wakes, idx) ==
            DeclaredFor(FiresAtWake(entries, orders, z, lastSeen, wakes[0]), idx) +
            Schedule(AfterWake(entries, orders, z, wakes[0]), orders, z, wakes[0].now, wakes[1..], idx)
    ensures LastWake(lastSeen, wakes) == LastWake(wakes[0].now, wakes[1..])
  {
  }

  lemma {:induction false} LastWakeInside(z: Zone, lastSeen: int, wakes: seq<Wake>)
    requires Nondecreasing(z, lastSeen, wakes) && z.dateOf(lastSeen) <= z.lastDay
    ensures lastSeen <= LastWake(lastSeen, wakes) && z.dateOf(LastWake(lastSeen, wakes)) <= z.lastDay
    decreases |wakes|
  {
    if wakes != [] {
      LastWakeInside(z, wakes[0].now, wakes[1..]);
      assert LastWake(lastSeen, wakes) == LastWake(wakes[0].now, wakes[1..]);
    }
  }

  lemma {:induction false} QuietDeclaresNothing(entries: Entries, orders: seq<Order>, z: Zone, lastSeen: int,
                                                wakes: seq<Wake>, idx: nat)
    requires ValidEntries(entries, orders) && AllPrompt(entries, orders, z, wakes) && idx !in entries
    ensures Schedule(entries, orders, z, lastSeen, wakes, idx) == []
    decreases |wakes|
  {
    if wakes != [] {
      QuietDeclaresNothing(AfterWake(entries, orders, z, wakes[0]), orders, z, wakes[0].now, wakes[1..], idx);
    }
  }

  /** `s` holds only fires of the order in `(from, to]`, and all of them that lie on days before `bound`. */
  ghost predicate FiresBefore(s: seq<int>, orders: seq<Order>, z: Zone, idx: nat, from: int, to: int, bound: int) {
    && (forall t :: t in s ==> FireOf(orders, z, idx, from, to, t))
    && (forall t :: FireOf(orders, z, idx, from, to, t) && z.dateOf(t) < bound ==> t in s)
  }

  lemma FiresBeforeJoin(s: seq<int>, later: seq<int>, orders: seq<Order>, z: Zone, idx: nat, from: int, mid: int,
                        to: int, bound: int, laterBound: int)
    requires AllFires(s, orders, z, idx, from, mid) && FiresBefore(later, orders, z, idx, mid, to, laterBound)
    requires from <= mid <= to && bound <= laterBound
    ensures FiresBefore(s + later, orders, z, idx, from, to, bound)
  {
    forall t
      ensures t in s + later ==> FireOf(orders, z, idx, from, to, t)
      ensures FireOf(orders, z, idx, from, to, t) && z.dateOf(t) < bound ==> t in s + later
    {
      assert t in s <==> FireOf(orders, z, idx, from, mid, t);
      assert t in later ==> FireOf(orders, z, idx, mid, to, t);
      assert FireOf(orders, z, idx, from, to, t) && !FireOf(orders, z, idx, from, mid, t) ==>
          FireOf(orders, z, idx, mid, to, t);
    }
  }

  /** An order that has just gone quiet has no fire left before a whole search horizon has passed. */
  lemma QuietMissesNothingSoon(entries: Entries, orders: seq<Order>, z: Zone, lastSeen: int, w: Wake, to: int, idx: nat)
    requires HourAligned(z) && z.dateOf(to) <= z.lastDay && lastSeen <= w.now <= to && !w.jump
    requires InStep(entries, orders, z, lastSeen) && idx in entries && idx !in AfterWake(entries, orders, z, w)
    ensures FiresBefore([], orders, z, idx, w.now, to, z.dateOf(w.now) + SEARCH_HORIZON_DAYS)
  {
    assert OrderInStep(entries, orders, z, lastSeen, idx);
    assert DatesInOrder(z, w.now, to);
    SearchGivesUp(orders[idx].trigger.expr, z, w.now);
    forall t | FireOf(orders, z, idx, w.now, to, t)
      ensures z.dateOf(t) >= z.dateOf(w.now) + SEARCH_HORIZON_DAYS
    {
      AheadIsFar(orders[idx].trigger.expr, z, w.now, t);
    }
  }

  /** When every wake is prompt, an order armed at the start declares nothing but its fires, and all
      of them up to the last wake that lie within a search horizon of the start; within a horizon,
      or while the order is still armed, that is exactly its schedule. */
  lemma {:induction false} PromptRunIsComplete(entries: Entries, orders: seq<Order>, z: Zone, lastSeen: int,
                                               wakes: seq<Wake>, idx: nat)
    requires HourAligned(z) && InStep(entries, orders, z, lastSeen) && Nondecreasing(z, lastSeen, wakes)
    requires z.dateOf(lastSeen) <= z.lastDay && AllPrompt(entries, orders, z, wakes) && idx in entries
    ensures var s, to := Schedule(entries, orders, z, lastSeen, wakes, idx), LastWake(lastSeen, wakes);
            && FiresBefore(s, orders, z, idx, lastSeen, to, z.dateOf(lastSeen) + SEARCH_HORIZON_DAYS)
            && (idx in AfterWakes(entries, orders, z, wakes) ||
                z.dateOf(to) < z.dateOf(lastSeen) + SEARCH_HORIZON_DAYS ==>
                  AllFires(s, orders, z, idx, lastSeen, to))
    decreases |wakes|
  {
    var to, bound := LastWake(lastSeen, wakes), z.dateOf(lastSeen) + SEARCH_HORIZON_DAYS;
    LastWakeInside(z, lastSeen, wakes);
    if wakes != [] {
      var w := wakes[0];
      var after := AfterWake(entries, orders, z, w);
      var later := Schedule(after, orders, z, w.now, wakes[1..], idx);
      LastWakeInside(z, w.now, wakes[1..]);
      assert DatesInOrder(z, lastSeen, w.now);
      WakeKeepsStep(entries, orders, z, lastSeen, w);
      PromptWakeIsExact(entries, orders, z, lastSeen, w, idx);
      ScheduleUnfolds(entries, orders, z, lastSeen, wakes, idx);
      if idx in after {
        PromptRunIsComplete(after, orders, z, w.now, wakes[1..], idx);
        if idx in AfterWakes(entries, orders, z, wakes) {
          FiresJoin(DeclaredFor(FiresAtWake(entries, orders, z, lastSeen, w), idx), later, orders, z, idx, lastSeen,
              w.now, to);
        }
      } else {
        QuietDeclaresNothing(after, orders, z, w.now, wakes[1..], idx);
        QuietStaysQuiet(after, orders, z, wakes[1..], idx);
        QuietMissesNothingSoon(entries, orders, z, lastSeen, w, to, idx);
      }
      FiresBeforeJoin(DeclaredFor(FiresAtWake(entries, orders, z, lastSeen, w), idx), later, orders, z, idx, lastSeen,
          w.now, to, bound, z.dateOf(w.now) + SEARCH_HORIZON_DAYS);
    }
    WithinBoundIsAll(Schedule(entries, orders, z, lastSeen, wakes, idx), orders, z, idx, lastSeen, to, bound);
  }

  lemma WithinBoundIsAll(s: seq<int>, orders: seq<Order>, z: Zone, idx: nat, from: int, to: int, bound: int)
    requires HourAligned(z) && FiresBefore(s, orders, z, idx, from, to, bound)
    ensures z.dateOf(to) < bound ==> AllFires(s, orders, z, idx, from, to)
  {
    if z.dateOf(to) < bound {
      forall t
        ensures t in s <==> FireOf(orders, z, idx, from, to, t)
      {
        assert DatesInOrder(z, t, to);
      }
    }
  }

  // ---- exactly when a prompt run misses nothing --------------------------

  /** Wake `i` finds nothing ahead of the order, which therefore goes quiet, or has, and the order
      would fire at `t`, by the end of the run. */
  ghost predicate LosesFire(orders: seq<Order>, z: Zone, idx: nat, wakes: seq<Wake>, i: int, t: int, to: int) {
    && 0 <= i < |wakes| && FireOf(orders, z, idx, wakes[i].now, to, t)
    && NothingAhead(orders[idx].trigger.expr, z, wakes[i].now)
  }

  lemma {:induction false} WakesInOrder(z: Zone, lastSeen: int, wakes: seq<Wake>, i: nat)
    requires Nondecreasing(z, lastSeen, wakes) && i < |wakes|
    ensures lastSeen <= wakes[i].now
    decreases |wakes|
  {
    if i > 0 {
      WakesInOrder(z, wakes[0].now, wakes[1..], i - 1);
    }
  }

  /** While the order stays armed, only later wakes can lose a fire. */
  lemma LosesLater(orders: seq<Order>, z: Zone, idx: nat, wakes: seq<Wake>, to: int)
    requires wakes != []
    requires idx < |orders| && orders[idx].trigger.Cron? && !NothingAhead(orders[idx].trigger.expr, z, wakes[0].now)
    ensures (exists i, t :: LosesFire(orders, z, idx, wakes, i, t, to)) <==>
            (exists i, t :: LosesFire(orders, z, idx, wakes[1..], i, t, to))
  {
    if i, t :| LosesFire(orders, z, idx, wakes, i, t, to) {
      assert LosesFire(orders, z, idx, wakes[1..], i - 1, t, to);
    }
    if i, t :| LosesFire(orders, z, idx, wakes[1..], i, t, to) {
      assert LosesFire(orders, z, idx, wakes, i + 1, t, to);
    }
  }

  /** Once it has gone quiet, what any wake loses the first one does. */
  lemma LosesFirst(orders: seq<Order>, z: Zone, idx: nat, lastSeen: int, wakes: seq<Wake>, to: int)
    requires wakes != [] && Nondecreasing(z, lastSeen, wakes)
    requires idx < |orders| && orders[idx].trigger.Cron? && NothingAhead(orders[idx].trigger.expr, z, wakes[0].now)
    ensures (exists i, t :: LosesFire(orders, z, idx, wakes, i, t, to)) <==>
            (exists t :: FireOf(orders, z, idx, wakes[0].now, to, t))
  {
    if i, t :| LosesFire(orders, z, idx, wakes, i, t, to) {
      if i > 0 {
        WakesInOrder(z, wakes[0].now, wakes[1..], i - 1);
      }
      assert FireOf(orders, z, idx, wakes[0].now, to, t);
    }
    if t :| FireOf(orders, z, idx, wakes[0].now, to, t) {
      assert LosesFire(orders, z, idx, wakes, 0, t, to);
    }
  }

  /** A complete front leaves the rest to be complete on its own. */
  lemma CompleteJoin(s: seq<int>, later: seq<int>, orders: seq<Order>, z: Zone, idx: nat, from: int, mid: int, to: int)
    requires AllFires(s, orders, z, idx, from, mid) && from <= mid <= to
    requires forall t :: t in later ==> FireOf(orders, z, idx, mid, to, t)
    ensures AllFires(s + later, orders, z, idx, from, to) <==> AllFires(later, orders, z, idx, mid, to)
  {
    if AllFires(later, orders, z, idx, mid, to) {
      FiresJoin(s, later, orders, z, idx, from, mid, to);
    }
    if AllFires(s + later, orders, z, idx, from, to) {
      forall t | FireOf(orders, z, idx, mid, to, t)
        ensures t in later
      {
        assert FireOf(orders, z, idx, from, to, t) && !FireOf(orders, z, idx, from, mid, t);
        assert t in s + later && t !in s;
      }
    }
  }

  lemma GoneQuiet(entries: Entries, orders: seq<Order>, z: Zone, lastSeen: int, w: Wake, idx: nat)
    requires HourAligned(z) && z.dateOf(w.now) <= z.lastDay && lastSeen <= w.now && !w.jump
    requires InStep(entries, orders, z, lastSeen) && idx in entries
    ensures idx < |orders| && orders[idx].trigger.Cron?
    ensures idx !in AfterWake(entries, orders, z, w) <==> NothingAhead(orders[idx].trigger.expr, z, w.now)
  {
    assert OrderInStep(entries, orders, z, lastSeen, idx);
    SearchGivesUp(orders[idx].trigger.expr, z, w.now);
    if !IsDue(entries, w.now, idx) {
      JumpKeepsPending(orders[idx], z, w.now, lastSeen, entries[idx]);
    }
  }

  lemma NoneDeclaredIsComplete(orders: seq<Order>, z: Zone, idx: nat, from: int, to: int)
    ensures AllFires([], orders, z, idx, from, to) <==> !exists t :: FireOf(orders, z, idx, from, to, t)
  {
  }

  /** When every wake is prompt, an order armed at the start declares exactly its fires up to the last
      wake if and only if no wake finds nothing ahead of it, for a whole search horizon, and a fire
      of its after that within the run. */
  lemma {:induction false} PromptRunExactly(entries: Entries, orders: seq<Order>, z: Zone, lastSeen: int,
                                            wakes: seq<Wake>, idx: nat)
    requires HourAligned(z) && InStep(entries, orders, z, lastSeen) && Nondecreasing(z, lastSeen, wakes)
    requires z.dateOf(lastSeen) <= z.lastDay && AllPrompt(entries, orders, z, wakes) && idx in entries
    ensures var to := LastWake(lastSeen, wakes);
            AllFires(Schedule(entries, orders, z, lastSeen, wakes, idx), orders, z, idx, lastSeen, to) <==>
            !exists i, t :: LosesFire(orders, z, idx, wakes, i, t, to)
    decreases |wakes|
  {
    var to := LastWake(lastSeen, wakes);
    if wakes == [] {
      NoneDeclaredIsComplete(orders, z, idx, lastSeen, to);
    } else {
      var w, after := wakes[0], AfterWake(entries, orders, z, wakes[0]);
      var later := Schedule(after, orders, z, w.now, wakes[1..], idx);
      LastWakeInside(z, w.now, wakes[1..]);
      WakeKeepsStep(entries, orders, z, lastSeen, w);
      PromptWakeIsExact(entries, orders, z, lastSeen, w, idx);
      ScheduleUnfolds(entries, orders, z, lastSeen, wakes, idx);
      GoneQuiet(entries, orders, z, lastSeen, w, idx);
      if idx in after {
        PromptRunIsComplete(after, orders, z, w.now, wakes[1..], idx);
        PromptRunExactly(after, orders, z, w.now, wakes[1..], idx);
        LosesLater(orders, z, idx, wakes, to);
      } else {
        QuietDeclaresNothing(after, orders, z, w.now, wakes[1..], idx);
        NoneDeclaredIsComplete(orders, z, idx, w.now, to);
        LosesFirst(orders, z, idx, lastSeen, wakes, to);
      }
      CompleteJoin(DeclaredFor(FiresAtWake(entries, orders, z, lastSeen, w), idx), later, orders, z, idx,
          lastSeen, w.now, to);
    }
  }

  // ---- a heap as it is built ---------------------------------------------

  function CronOrders(orders: seq<Order>): seq<Order> {
    if orders == [] then []
    else CronOrders(orders[..|orders| - 1]) + if orders[|orders| - 1].trigger.Cron? then [orders[|orders| - 1]] else []
  }

  predicate NeverFiresFrom(o: Order, z: Zone, now: int) {
    o.trigger.Cron? && Rescheduled(o, z, now) == None
  }

  ghost predicate FirstNever(orders: seq<Order>, z: Zone, now: int, i: int) {
    && 0 <= i < |orders| && NeverFiresFrom(orders[i], z, now)
    && forall j :: 0 <= j < i ==> !NeverFiresFrom(orders[j], z, now)
  }

  lemma ArmExtends(orders: seq<Order>, o: Order, z: Zone, now: int)
    requires Rescheduled(o, z, now).Some? && AllArmed(AfterJump(orders, z, now), orders)
    ensures AfterJump(orders + [o], z, now) == AfterJump(orders, z, now)[|orders| := Rescheduled(o, z, now).value]
    ensures AllArmed(AfterJump(orders + [o], z, now), orders + [o])
  {
    var more := orders + [o];
    var before, after := AfterJump(orders, z, now), AfterJump(more, z, now);
    assert more[|orders|] == o && forall i :: 0 <= i < |orders| ==> more[i] == orders[i];
    forall idx: nat
      ensures idx in after <==> idx in before || idx == |orders|
      ensures idx in before ==> after[idx] == before[idx]
    {
      if idx < |orders| {
        assert more[idx] == orders[idx];
      }
    }
    assert after == before[|orders| := Rescheduled(o, z, now).value];
  }

  lemma CronOrdersNext(orders: seq<Order>, i: nat)
    requires i < |orders|
    ensures CronOrders(orders[..i + 1]) == CronOrders(orders[..i]) + if orders[i].trigger.Cron? then [orders[i]] else []
    ensures forall o :: o in orders[..i + 1] <==> o in orders[..i] || o == orders[i]
  {
    assert orders[..i + 1][..i] == orders[..i] && orders[..i + 1] == orders[..i] + [orders[i]];
  }

  /** Arm every cron order at one instant; the first order that never fires stops it. The heap that comes
      out holds every cron order, each at its next fire. */
  method ArmAll(tz: Zone, orders: seq<Order>, now: int) returns (r: Result<Heap, OrderError>)
    ensures match r
            case Ok(heap) =>
              && fresh(heap) && heap.Valid() && heap.tz == tz && heap.orders == CronOrders(orders)
              && heap.entries == AfterJump(heap.orders, tz, now) && AllArmed(heap.entries, heap.orders)
              && forall o :: o in orders ==> !NeverFiresFrom(o, tz, now)
            case Err(e) => exists i :: FirstNever(orders, tz, now, i) && e == NeverFires(orders[i].name)
  {
    var heap := new Heap(tz);
    for i := 0 to |orders|
      invariant fresh(heap) && heap.Valid() && heap.tz == tz && heap.orders == CronOrders(orders[..i])
      invariant heap.entries == AfterJump(heap.orders, tz, now) && AllArmed(heap.entries, heap.orders)
      invariant forall o :: o in orders[..i] ==> !NeverFiresFrom(o, tz, now)
    {
      CronOrdersNext(orders, i);
      assert orders[i] in orders;
      if orders[i].trigger.Cron? {
        ghost var before := heap.orders;
        var armed := heap.Arm(orders[i], now);
        if armed.Err? {
          assert forall j :: 0 <= j < i ==> orders[j] in orders[..i];
          assert FirstNever(orders, tz, now, i);
          return Err(armed.error);
        }
        ArmExtends(before, orders[i], tz, now);
      }
    }
    assert orders[..|orders|] == orders;
    return Ok(heap);
  }

  /** A heap armed at `now` is in step, and pending from any earlier instant. */
  lemma ArmedIsInStep(orders: seq<Order>, z: Zone, now: int, lastSeen: int)
    requires HourAligned(z) && z.dateOf(now) <= z.lastDay && TS_MIN + SECOND <= now && lastSeen <= now
    ensures InStep(AfterJump(orders, z, now), orders, z, now)
    ensures Pending(AfterJump(orders, z, now), orders, z, lastSeen)
  {
    var entries := AfterJump(orders, z, now);
    forall idx | idx in entries
      ensures OrderInStep(entries, orders, z, now, idx)
      ensures lastSeen < entries[idx] && IsFire(orders[idx].trigger.expr, z, entries[idx])
    {
      NextIsLeast(orders[idx].trigger.expr, z, now);
    }
  }

  /** From the heap as the daemon builds it, whatever was seen last before: over any wakes and jumps
      no instant is declared twice; and over prompt wakes from the arming on, every order declares
      exactly its schedule for as long as a search horizon, and beyond it unless one is lost. */
  lemma ArmedHeapKeepsSchedule(orders: seq<Order>, z: Zone, armed: int, lastSeen: int, wakes: seq<Wake>, idx: nat)
    requires HourAligned(z) && z.dateOf(armed) <= z.lastDay && TS_MIN + SECOND <= armed && lastSeen <= armed
    ensures Nondecreasing(z, lastSeen, wakes) ==>
              DeclaredOnce(Schedule(AfterJump(orders, z, armed), orders, z, lastSeen, wakes, idx), orders, z, idx,
                           lastSeen, LastWake(lastSeen, wakes))
    ensures Nondecreasing(z, armed, wakes) && AllPrompt(AfterJump(orders, z, armed), orders, z, wakes) &&
            idx in AfterJump(orders, z, armed) &&
            z.dateOf(LastWake(armed, wakes)) < z.dateOf(armed) + SEARCH_HORIZON_DAYS ==>
              AllFires(Schedule(AfterJump(orders, z, armed), orders, z, armed, wakes, idx), orders, z, idx,
                       armed, LastWake(armed, wakes))
    ensures Nondecreasing(z, armed, wakes) && AllPrompt(AfterJump(orders, z, armed), orders, z, wakes) &&
            idx in AfterJump(orders, z, armed) ==>
              (AllFires(Schedule(AfterJump(orders, z, armed), orders, z, armed, wakes, idx), orders, z, idx,
                        armed, LastWake(armed, wakes)) <==>
               !exists i, t :: LosesFire(orders, z, idx, wakes, i, t, LastWake(armed, wakes)))
  {
    var entries := AfterJump(orders, z, armed);
    ArmedIsInStep(orders, z, armed, lastSeen);
    if Nondecreasing(z, lastSeen, wakes) {
      NothingTwice(entries, orders, z, lastSeen, wakes, idx);
    }
    if Nondecreasing(z, armed, wakes) && AllPrompt(entries, orders, z, wakes) && idx in entries {
      PromptRunIsComplete(entries, orders, z, armed, wakes, idx);
      PromptRunExactly(entries, orders, z, armed, wakes, idx);
    }
  }
}
