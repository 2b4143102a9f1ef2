/** The timer heap: arm, pop what is due, recompute after a clock jump; with the catch-up rule the
    last two share. */
module CronHeap {
  import opened Wrappers
  import opened CronField
  import opened CronSchedule

  const ON_TIME_TOLERANCE := MINUTE

  /** The earliest representable instant, and the longest signed duration. */
  const TS_MIN := -377_705_023_201 * SECOND
  const MAX_SIGNED := 0x7FFF_FFFF_FFFF_FFFF * SECOND + 999_999_999

  datatype Trigger = Cron(expr: CronExpr) | EventTrigger

  datatype Order = Order(name: string, trigger: Trigger, catchUpWindow: nat)

  datatype Fire = Fire(order: string, scheduled: int, catchUp: bool)

  datatype CatchUp = CatchUp(order: string, scheduled: int)

  datatype OrderError = NotCron(order: string) | NeverFires(order: string)

  // ---- the catch-up rule -------------------------------------------------

  predicate WindowEnabled(window: nat) {
    0 < window <= MAX_SIGNED
  }

  /** Recent enough to fire: on time, or late but within the window. */
  predicate Recent(window: nat, now: int, fire: int) {
    now - fire <= ON_TIME_TOLERANCE || (WindowEnabled(window) && now - fire <= window)
  }

  /** Where the windowed scan starts: no earlier than `lastSeen`, and early enough. */
  function ScanStart(window: nat, now: int, lastSeen: int): int {
    var floor := if now - window < TS_MIN || now - window - ON_TIME_TOLERANCE < TS_MIN then lastSeen
                 else now - window - ON_TIME_TOLERANCE;
    if floor > lastSeen then floor else lastSeen
  }

  /** Follow the fires from `cursor` to `now`, keeping the last recent one. */
  function ScanFrom(e: CronExpr, z: Zone, window: nat, now: int, cursor: int, best: Option<int>): Option<int>
    decreases if cursor < now then now - cursor else 0
  {
    match NextAfter(e, z, cursor)
    case None => best
    case Some(fire) =>
      if fire > now then best
      else ScanFrom(e, z, window, now, fire, if Recent(window, now, fire) then Some(fire) else best)
  }

  function MostRecentMissed(e: CronExpr, z: Zone, window: nat, now: int, lastSeen: int): Option<int> {
    if !WindowEnabled(window) then None
    else ScanFrom(e, z, window, now, ScanStart(window, now, lastSeen), None)
  }

  method ScanMissed(e: CronExpr, z: Zone, window: nat, now: int, lastSeen: int) returns (r: Option<int>)
    ensures r == MostRecentMissed(e, z, window, now, lastSeen)
  {
    if !WindowEnabled(window) {
      return None;
    }
    var cursor := ScanStart(window, now, lastSeen);
    r := None;
    while true
      invariant MostRecentMissed(e, z, window, now, lastSeen) == ScanFrom(e, z, window, now, cursor, r)
      decreases if cursor < now then now - cursor else 0
    {
      var fire := SearchNextAfter(e, z, cursor);
      if fire == None || fire.value > now {
        return r;
      }
      if Recent(window, now, fire.value) {
        r := fire;
      }
      cursor := fire.value;
    }
  }

  function IntoFire(c: CatchUp, now: int): Fire {
    Fire(c.order, c.scheduled, now - c.scheduled > ON_TIME_TOLERANCE)
  }

  /** What popping a deadline declares. */
  function DueFire(o: Order, z: Zone, deadline: int, now: int): Option<Fire> {
    if now - deadline <= ON_TIME_TOLERANCE then Some(Fire(o.name, deadline, false))
    else match o.trigger
      case EventTrigger => None
      case Cron(e) =>
        var scanFrom := if deadline - SECOND < TS_MIN then deadline else deadline - SECOND;
        match MostRecentMissed(e, z, o.catchUpWindow, now, scanFrom)
        case None => None
        case Some(t) => Some(Fire(o.name, t, now - t > ON_TIME_TOLERANCE))
  }

  /** What a detected clock jump declares. */
  function JumpCatchUp(o: Order, z: Zone, now: int, lastSeen: int): Option<CatchUp> {
    match o.trigger
    case EventTrigger => None
    case Cron(e) =>
      if now <= lastSeen then None
      else match MostRecentMissed(e, z, o.catchUpWindow, now, lastSeen)
        case None => None
        case Some(t) => Some(CatchUp(o.name, t))
  }

  function JumpFire(o: Order, z: Zone, now: int, lastSeen: int): Option<Fire> {
    match JumpCatchUp(o, z, now, lastSeen)
    case None => None
    case Some(c) => Some(IntoFire(c, now))
  }

  function Rescheduled(o: Order, z: Zone, now: int): Option<int> {
    match o.trigger
    case EventTrigger => None
    case Cron(e) => NextAfter(e, z, now)
  }

  // ---- the heap as a value -----------------------------------------------

  /** The heap's (deadline, order index) pairs by index: no index is ever in the heap twice. */
  type Entries = map<nat, int>

  ghost predicate ValidEntries(entries: Entries, orders: seq<Order>) {
    forall idx :: idx in entries ==> idx < |orders| && orders[idx].trigger.Cron?
  }

  /** The order in which the min-heap pops. */
  predicate PopsBefore(entries: Entries, a: nat, b: nat)
    requires a in entries && b in entries
  {
    entries[a] < entries[b] || (entries[a] == entries[b] && a < b)
  }

  function Put(entries: Entries, idx: nat, deadline: Option<int>): Entries {
    match deadline
    case None => entries
    case Some(t) => entries[idx := t]
  }

  predicate IsDue(entries: Entries, now: int, idx: nat) {
    idx in entries && entries[idx] <= now
  }

  /** The fires a pop at `now` declares, by order index, and the heap it leaves. */
  ghost function DueFires(entries: Entries, orders: seq<Order>, z: Zone, now: int): map<nat, Fire>
    requires ValidEntries(entries, orders)
  {
    map idx | idx in entries && IsDue(entries, now, idx) && DueFire(orders[idx], z, entries[idx], now).Some?
      :: DueFire(orders[idx], z, entries[idx], now).value
  }

  ghost function AfterDue(entries: Entries, orders: seq<Order>, z: Zone, now: int): Entries
    requires ValidEntries(entries, orders)
  {
    map idx | idx in entries && (IsDue(entries, now, idx) ==> Rescheduled(orders[idx], z, now).Some?)
      :: if IsDue(entries, now, idx) then Rescheduled(orders[idx], z, now).value else entries[idx]
  }

  /** What a pop does to one armed order: nothing before its deadline; from then on its fire, if it has
      one, and its next fire after now, if there is one, in the place of the deadline. */
  lemma PopMeans(entries: Entries, orders: seq<Order>, z: Zone, now: int, idx: nat)
    requires ValidEntries(entries, orders) && idx in entries
    ensures var after, fires := AfterDue(entries, orders, z, now), DueFires(entries, orders, z, now);
            var fire, next := DueFire(orders[idx], z, entries[idx], now), NextAfter(orders[idx].trigger.expr, z, now);
            && after.Keys <= entries.Keys && fires.Keys <= entries.Keys
            && (now < entries[idx] ==> idx in after && after[idx] == entries[idx] && idx !in fires)
            && (entries[idx] <= now ==>
                  && (if next.Some? then idx in after && after[idx] == next.value else idx !in after)
                  && (if fire.Some? then idx in fires && fires[idx] == fire.value else idx !in fires))
  {
  }

  /** What a recomputation does to one order: a cron order is armed at its next fire after now, if there
      is one, whatever it was armed at; and only it can have missed a fire, when the clock moved on. */
  lemma RecomputeMeans(orders: seq<Order>, z: Zone, now: int, lastSeen: int, idx: nat)
    requires idx < |orders|
    ensures var after, fires, o := AfterJump(orders, z, now), JumpFires(orders, z, now, lastSeen), orders[idx];
            match o.trigger
            case EventTrigger => idx !in after && idx !in fires
            case Cron(e) =>
              && (if NextAfter(e, z, now).Some? then idx in after && after[idx] == NextAfter(e, z, now).value
                  else idx !in after)
              && var missed := MostRecentMissed(e, z, o.catchUpWindow, now, lastSeen);
                 if lastSeen < now && missed.Some? then
                   idx in fires &&
                   fires[idx] == Fire(o.name, missed.value, now - missed.value > 60_000_000_000)
                 else idx !in fires
  {
  }

  ghost function JumpFires(orders: seq<Order>, z: Zone, now: int, lastSeen: int): map<nat, Fire> {
    map idx | 0 <= idx < |orders| && JumpFire(orders[idx], z, now, lastSeen).Some?
      :: JumpFire(orders[idx], z, now, lastSeen).value
  }

  ghost function AfterJump(orders: seq<Order>, z: Zone, now: int): Entries {
    map idx | 0 <= idx < |orders| && Rescheduled(orders[idx], z, now).Some? :: Rescheduled(orders[idx], z, now).value
  }

  /** `tags` names the order of each item of `items`, each order at most once, and together they
      are the given map. */
  ghost predicate Lists<T(!new)>(items: seq<T>, tags: seq<nat>, m: map<nat, T>) {
    && |items| == |tags|
    && (forall i, j :: 0 <= i < j < |tags| ==> tags[i] != tags[j])
    && (forall i :: 0 <= i < |tags| ==> tags[i] in m && m[tags[i]] == items[i])
    && (forall idx :: idx in m ==> idx in tags)
  }

  lemma {:induction false} MinExists(entries: Entries, some: set<nat>) returns (idx: nat)
    requires some <= entries.Keys && some != {}
    ensures idx in some && forall k :: k in some && k != idx ==> PopsBefore(entries, idx, k)
    decreases |some|
  {
    var x :| x in some;
    var rest := some - {x};
    if rest == {} {
      assert some == {x};
      return x;
    }
    var y := MinExists(entries, rest);
    idx := if PopsBefore(entries, x, y) then x else y;
    forall k | k in some && k != idx
      ensures PopsBefore(entries, idx, k)
    {
      assert k == x || k == y || PopsBefore(entries, y, k);
    }
  }

  ghost predicate Declared(entries: Entries, orders: seq<Order>, z: Zone, now: int, idx: nat, fire: Fire) {
    idx in entries && idx < |orders| && DueFire(orders[idx], z, entries[idx], now) == Some(fire)
  }

  /** Earliest deadline first, and among equal ones the order armed first. */
  ghost predicate InPopOrder(entries: Entries, tags: seq<nat>) {
    && (forall i :: 0 <= i < |tags| ==> tags[i] in entries)
    && (forall i, j :: 0 <= i < j < |tags| ==>
          entries[tags[i]] < entries[tags[j]] || (entries[tags[i]] == entries[tags[j]] && tags[i] < tags[j]))
  }

  /** The fires declared so far are those of the popped orders, earliest deadline first. */
  ghost predicate FiresSoFar(before: Entries, orders: seq<Order>, z: Zone, now: int, popped: set<nat>, fires: seq<Fire>,
                             tags: seq<nat>)
  {
    && |fires| == |tags|
    && (forall i :: 0 <= i < |tags| ==> tags[i] in popped && Declared(before, orders, z, now, tags[i], fires[i]))
    && InPopOrder(before, tags)
    && (forall idx, fire :: idx in popped && Declared(before, orders, z, now, idx, fire) ==> idx in tags)
  }

  lemma FiresGrow(before: Entries, orders: seq<Order>, z: Zone, now: int, popped: set<nat>, fires: seq<Fire>,
                  tags: seq<nat>, idx: nat)
    requires FiresSoFar(before, orders, z, now, popped, fires, tags)
    requires idx in before && idx < |orders|
    requires forall p :: p in popped ==> p in before && PopsBefore(before, p, idx)
    ensures match DueFire(orders[idx], z, before[idx], now)
            case None => FiresSoFar(before, orders, z, now, popped + {idx}, fires, tags)
            case Some(fire) => FiresSoFar(before, orders, z, now, popped + {idx}, fires + [fire], tags + [idx])
  {
    forall k | k in tags
      ensures k in tags + [idx]
    {
    }
  }

  lemma FiresComplete(before: Entries, orders: seq<Order>, z: Zone, now: int, popped: set<nat>, fires: seq<Fire>,
                      tags: seq<nat>)
    requires ValidEntries(before, orders) && FiresSoFar(before, orders, z, now, popped, fires, tags)
    requires forall k :: k in popped <==> IsDue(before, now, k)
    ensures Lists(fires, tags, DueFires(before, orders, z, now))
  {
    var m := DueFires(before, orders, z, now);
    forall i, j | 0 <= i < j < |tags|
      ensures tags[i] != tags[j]
    {
      assert PopsBefore(before, tags[i], tags[j]);
    }
    forall i | 0 <= i < |tags|
      ensures tags[i] in m && m[tags[i]] == fires[i]
    {
      assert Declared(before, orders, z, now, tags[i], fires[i]);
    }
    forall idx | idx in m
      ensures idx in tags
    {
      assert Declared(before, orders, z, now, idx, m[idx]);
    }
  }

  /** The catch-ups found among the first `k` orders, in order of arming. */
  ghost predicate JumpsSoFar(orders: seq<Order>, z: Zone, now: int, lastSeen: int, k: nat, catchUps: seq<CatchUp>,
                             tags: seq<nat>)
  {
    && |catchUps| == |tags|
    && (forall i :: 0 <= i < |tags| ==> tags[i] < k && Caught(orders, z, now, lastSeen, tags[i], catchUps[i]))
    && (forall i, j :: 0 <= i < j < |tags| ==> tags[i] < tags[j])
    && (forall idx: nat, c :: idx < k && Caught(orders, z, now, lastSeen, idx, c) ==> idx in tags)
  }

  ghost predicate Caught(orders: seq<Order>, z: Zone, now: int, lastSeen: int, idx: nat, c: CatchUp) {
    idx < |orders| && JumpCatchUp(orders[idx], z, now, lastSeen) == Some(c)
  }

  lemma JumpsGrow(orders: seq<Order>, z: Zone, now: int, lastSeen: int, k: nat, catchUps: seq<CatchUp>, tags: seq<nat>)
    requires k < |orders| && JumpsSoFar(orders, z, now, lastSeen, k, catchUps, tags)
    ensures match JumpCatchUp(orders[k], z, now, lastSeen)
            case None => JumpsSoFar(orders, z, now, lastSeen, k + 1, catchUps, tags)
            case Some(c) => JumpsSoFar(orders, z, now, lastSeen, k + 1, catchUps + [c], tags + [k])
  {
    forall i | i in tags
      ensures i in tags + [k]
    {
    }
  }

  function Flagged(catchUps: seq<CatchUp>, now: int): seq<Fire> {
    seq(|catchUps|, i requires 0 <= i < |catchUps| => IntoFire(catchUps[i], now))
  }

  lemma JumpsComplete(orders: seq<Order>, z: Zone, now: int, lastSeen: int, catchUps: seq<CatchUp>, tags: seq<nat>)
    requires JumpsSoFar(orders, z, now, lastSeen, |orders|, catchUps, tags)
    ensures Lists(Flagged(catchUps, now), tags, JumpFires(orders, z, now, lastSeen))
  {
    var m := JumpFires(orders, z, now, lastSeen);
    forall i | 0 <= i < |tags|
      ensures tags[i] in m && m[tags[i]] == IntoFire(catchUps[i], now)
    {
      assert Caught(orders, z, now, lastSeen, tags[i], catchUps[i]);
    }
    forall idx | idx in m
      ensures idx in tags
    {
      assert Caught(orders, z, now, lastSeen, idx, JumpCatchUp(orders[idx], z, now, lastSeen).value);
    }
  }

  // ---- the heap as an object ---------------------------------------------

  class Heap {
    const tz: Zone
    var orders: seq<Order>
    var entries: Entries

    constructor (tz: Zone)
      ensures this.tz == tz && orders == [] && entries == map[] && Valid()
    {
      this.tz := tz;
      orders, entries := [], map[];
    }

    ghost predicate Valid()
      reads this
    {
      ValidEntries(entries, orders)
    }

    /** Arm a cron order; the heap is untouched when it is not one or never fires. */
    method Arm(order: Order, now: int) returns (r: Result<(), OrderError>)
      requires Valid()
      modifies this
      ensures Valid()
      ensures match r
              case Ok(_) =>
                && Rescheduled(order, tz, now).Some?
                && orders == old(orders) + [order]
                && entries == old(entries)[|old(orders)| := Rescheduled(order, tz, now).value]
              case Err(e) =>
                && Rescheduled(order, tz, now) == None
                && e == (if order.trigger.EventTrigger? then NotCron(order.name) else NeverFires(order.name))
                && orders == old(orders) && entries == old(entries)
    {
      match order.trigger {
        case EventTrigger => return Err(NotCron(order.name));
        case Cron(expr) =>
          var next := SearchNextAfter(expr, tz, now);
          if next == None {
            return Err(NeverFires(order.name));
          }
          var idx := |orders|;
          orders := orders + [order];
          entries := entries[idx := next.value];
          return Ok(());
      }
    }

    /** The index the heap would pop next. */
    method Peek() returns (r: Option<nat>)
      ensures r == None <==> entries == map[]
      ensures r.Some? ==>
          r.value in entries && forall k :: k in entries && k != r.value ==> PopsBefore(entries, r.value, k)
    {
      if entries == map[] {
        return None;
      }
      assert entries.Keys != {};
      ghost var least := MinExists(entries, entries.Keys);
      var idx :| idx in entries && forall k :: k in entries && k != idx ==> PopsBefore(entries, idx, k);
      return Some(idx);
    }

    /** The earliest armed deadline. */
    method NextDeadline() returns (r: Option<int>)
      ensures r == None <==> entries == map[]
      ensures r.Some? ==> r.value in entries.Values && forall k :: k in entries ==> r.value <= entries[k]
    {
      var top := Peek();
      if top == None {
        return None;
      }
      return Some(entries[top.value]);
    }

    /** The fire a popped deadline declares, decided as the loop body decides it. */
    method Declare(order: Order, deadline: int, now: int) returns (r: Option<Fire>)
      ensures r == DueFire(order, tz, deadline, now)
    {
      var lateness := now - deadline;
      if lateness <= ON_TIME_TOLERANCE {
        return Some(Fire(order.name, deadline, false));
      }
      if order.trigger.Cron? {
        var scanFrom := if deadline - SECOND < TS_MIN then deadline else deadline - SECOND;
        var scheduled := ScanMissed(order.trigger.expr, tz, order.catchUpWindow, now, scanFrom);
        if scheduled.Some? {
          return Some(Fire(order.name, scheduled.value, now - scheduled.value > ON_TIME_TOLERANCE));
        }
      }
      return None;
    }

    /** What is left of the heap after popping `popped`. */
    ghost predicate HeapAfter(before: Entries, now: int, popped: set<nat>)
      requires ValidEntries(before, orders)
      reads this
    {
      && popped <= before.Keys
      && (forall idx :: idx in popped ==> IsDue(before, now, idx))
      && (forall idx :: idx in popped ==>
            if idx in entries then Rescheduled(orders[idx], tz, now) == Some(entries[idx])
            else Rescheduled(orders[idx], tz, now) == None)
      && (forall idx :: idx !in popped ==> (idx in entries <==> idx in before))
      && (forall idx :: idx in before && idx !in popped ==> entries[idx] == before[idx])
    }

    /** Pop one due entry, declare its fire, and put it back at its next deadline. */
    method PopOne(idx: nat, now: int, ghost before: Entries, ghost popped: set<nat>) returns (fire: Option<Fire>)
      requires Valid() && ValidEntries(before, orders) && HeapAfter(before, now, popped)
      requires idx in entries && entries[idx] <= now
      modifies this`entries
      ensures Valid() && idx in before && idx !in popped && HeapAfter(before, now, popped + {idx})
      ensures fire == DueFire(orders[idx], tz, before[idx], now)
    {
      var order, deadline := orders[idx], entries[idx];
      entries := entries - {idx};
      fire := Declare(order, deadline, now);
      var next := SearchNextAfter(order.trigger.expr, tz, now);
      if next.Some? {
        entries := entries[idx := next.value];
      }
    }

    /** Pop everything due at `now` and reschedule it from `now`. The fires declared are exactly
        those of the due orders, one per order at most, earliest deadline first. */
    method FireDue(now: int) returns (fires: seq<Fire>, ghost tags: seq<nat>)
      requires Valid()
      modifies this`entries
      ensures Valid()
      ensures entries == AfterDue(old(entries), orders, tz, now)
      ensures Lists(fires, tags, DueFires(old(entries), orders, tz, now))
      ensures InPopOrder(old(entries), tags)
    {
      ghost var before := entries;
      ghost var popped: set<nat> := {};
      fires, tags := [], [];
      while true
        invariant Valid() && HeapAfter(before, now, popped) && FiresSoFar(before, orders, tz, now, popped, fires, tags)
        invariant forall p, k :: p in popped && IsDue(before, now, k) && k !in popped ==>
            p in before && PopsBefore(before, p, k)
        decreases before.Keys - popped
      {
        var top := Peek();
        if top == None || entries[top.value] > now {
          AllDuePopped(before, now, popped, top);
          FiresComplete(before, orders, tz, now, popped, fires, tags);
          return;
        }
        var idx := top.value;
        NextPopped(before, now, popped, idx);
        FiresGrow(before, orders, tz, now, popped, fires, tags, idx);
        var fire := PopOne(idx, now, before, popped);
        if fire.Some? {
          fires, tags := fires + [fire.value], tags + [idx];
        }
        popped := popped + {idx};
      }
    }

    /** The top of the heap, when due, was due before, and pops before all that are still to pop. */
    lemma NextPopped(before: Entries, now: int, popped: set<nat>, idx: nat)
      requires ValidEntries(before, orders) && HeapAfter(before, now, popped)
      requires idx in entries && entries[idx] <= now
      requires forall k :: k in entries && k != idx ==> PopsBefore(entries, idx, k)
      ensures idx !in popped && IsDue(before, now, idx)
      ensures forall k :: IsDue(before, now, k) && k !in popped && k != idx ==> PopsBefore(before, idx, k)
    {
    }

    lemma AllDuePopped(before: Entries, now: int, popped: set<nat>, top: Option<nat>)
      requires ValidEntries(before, orders) && HeapAfter(before, now, popped)
      requires match top
               case None => entries == map[]
               case Some(idx) => idx in entries && entries[idx] > now &&
                                 forall k :: k in entries && k != idx ==> PopsBefore(entries, idx, k)
      ensures forall k :: k in popped <==> IsDue(before, now, k)
      ensures entries == AfterDue(before, orders, tz, now)
    {
      forall k | IsDue(before, now, k)
        ensures k in popped
      {
        assert k !in popped ==> k in entries;
      }
    }

    /** One order of a recomputation: its missed fire, and its entry in the cleared heap. */
    method RecomputeOne(idx: nat, now: int, lastSeen: int) returns (c: Option<CatchUp>)
      requires Valid() && idx < |orders| && idx !in entries
      modifies this`entries
      ensures Valid() && c == JumpCatchUp(orders[idx], tz, now, lastSeen)
      ensures entries == Put(old(entries), idx, Rescheduled(orders[idx], tz, now))
    {
      c := None;
      match orders[idx].trigger {
        case EventTrigger =>
        case Cron(expr) =>
          if now > lastSeen {
            var scheduled := ScanMissed(expr, tz, orders[idx].catchUpWindow, now, lastSeen);
            if scheduled.Some? {
              c := Some(CatchUp(orders[idx].name, scheduled.value));
            }
          }
          var next := SearchNextAfter(expr, tz, now);
          if next.Some? {
            entries := entries[idx := next.value];
          }
      }
    }

    /** Clear the heap, reschedule every order from `now`, and report for each the most recent
        missed fire since `lastSeen`, in order of arming. */
    method Recompute(now: int, lastSeen: int) returns (catchUps: seq<CatchUp>, ghost tags: seq<nat>)
      requires Valid()
      modifies this`entries
      ensures Valid()
      ensures entries == AfterJump(orders, tz, now)
      ensures |catchUps| == |tags|
      ensures Lists(Flagged(catchUps, now), tags, JumpFires(orders, tz, now, lastSeen))
      ensures forall i, j :: 0 <= i < j < |tags| ==> tags[i] < tags[j]
    {
      entries := map[];
      catchUps, tags := [], [];
      for idx := 0 to |orders|
        invariant Valid() && JumpsSoFar(orders, tz, now, lastSeen, idx, catchUps, tags)
        invariant forall k :: k in entries <==> 0 <= k < idx && Rescheduled(orders[k], tz, now).Some?
        invariant forall k :: k in entries ==> Rescheduled(orders[k], tz, now) == Some(entries[k])
      {
        JumpsGrow(orders, tz, now, lastSeen, idx, catchUps, tags);
        var caught := RecomputeOne(idx, now, lastSeen);
        if caught.Some? {
          catchUps, tags := catchUps + [caught.value], tags + [idx];
        }
      }
      JumpsComplete(orders, tz, now, lastSeen, catchUps, tags);
    }
  }
}
