/** Which beads are ready, asked afresh and kept up incrementally as beads close. */
module Readiness {
  import opened Wrappers
  import opened NeedsGraph
  import opened Ordering
  import opened Ledger

  /** The negation of the unmet-dependency test: the target exists, is closed, and passed. */
  predicate Met(beads: Beads, need: Id) {
    need in beads && beads[need].status == Closed && beads[need].outcome == Some(Pass)
  }

  predicate Ready(beads: Beads, b: Id) {
    b in beads && beads[b].status == Open && forall n :: n in beads[b].needs ==> Met(beads, n)
  }

  function IsReady(beads: Beads, b: Id): Result<bool, LedgerError> {
    if b !in beads then Err(UnknownBead(b)) else Ok(Ready(beads, b))
  }

  predicate InRig(beads: Beads, b: Id, rig: Option<string>)
    requires b in beads
  {
    rig == None || rig == Some(beads[b].rig)
  }

  function ReadyBeads(beads: Beads, rig: Option<string>): set<Id> {
    set b | b in beads && InRig(beads, b, rig) && Ready(beads, b)
  }

  /** The dependents of `closed` that are ready now. */
  function NewlyReadySet(beads: Beads, closed: Id): set<Id> {
    set b | b in beads && closed in beads[b].needs && Ready(beads, b)
  }

  /** Query the dependents in order of their ids, then keep those that are ready. */
  method NewlyReady(beads: Beads, closed: Id) returns (ready: seq<Id>)
    ensures forall b :: b in ready <==> b in NewlyReadySet(beads, closed)
    ensures Ascending(ready)
  {
    var dependents := set b | b in beads && closed in beads[b].needs;
    ghost var all := dependents;
    ready := [];
    while dependents != {}
      invariant dependents <= all
      invariant forall b :: b in ready <==> b in all - dependents && Ready(beads, b)
      invariant Ascending(ready) && forall a, b :: a in ready && b in dependents ==> Before(a, b)
    {
      var b := TakeLeast(dependents);
      dependents := dependents - {b};
      var answer := IsReady(beads, b);
      if answer == Ok(true) {
        AscendingSnoc(ready, b);
        ready := ready + [b];
      }
    }
  }

  // ---- the incremental set is the recomputed one -------------------------

  /** Closing an unclosed bead takes it out of the ready set and adds exactly its newly ready
      dependents, none of which was ready before; a close that is not a pass adds none. */
  lemma CloseUpdatesReady(beads: Beads, b: Id, outcome: Outcome, disposition: Option<Disposition>, rig: Option<string>)
    requires b in beads && beads[b].status != Closed
    ensures var after := CloseBead(beads, b, outcome, disposition);
            var unblocked := set x | x in NewlyReadySet(after, b) && InRig(after, x, rig);
            && ReadyBeads(after, rig) == (ReadyBeads(beads, rig) - {b}) + unblocked
            && ReadyBeads(beads, rig) !! unblocked
            && (outcome != Pass ==> unblocked == {})
  {
    var after := CloseBead(beads, b, outcome, disposition);
    forall n
      ensures Met(after, n) <==> if n == b then outcome == Pass else Met(beads, n)
    {
    }
    assert !Met(beads, b);
    forall x | x in beads && x != b
      ensures Ready(after, x) <==>
              if b in beads[x].needs then x in NewlyReadySet(after, b) else Ready(beads, x)
    {
      assert after[x] == beads[x];
    }
    assert !Ready(after, b);
  }

  /** One step of the incremental bookkeeping. */
  function Track(before: Beads, after: Beads, ready: set<Id>, e: Event): set<Id> {
    match e
    case BeadCreated(id, _, _) => ready + (set b | b in {id} && Ready(after, b))
    case BeadClaimed(id, _) => ready - {id}
    case BeadClosed(id, _, _) => (ready - {id}) + NewlyReadySet(after, id)
    case SessionWoke(_) => ready
    case SessionStopped(_) => ready
    case SessionCrashed(session) =>
      ready + (set b | b in before && HeldBy(before[b], session) && Ready(after, b))
  }

  lemma TrackStep(t: Tables, e: Event)
    requires Apply(t, e).Ok?
    ensures var next := Apply(t, e).value;
            Track(t.beads, next.beads, ReadyBeads(t.beads, None), e) == ReadyBeads(next.beads, None)
  {
    var next := Apply(t, e).value;
    if e.BeadClosed? {
      CloseUpdatesReady(t.beads, e.id, e.outcome, e.report.disposition, None);
    } else {
      forall n
        ensures Met(next.beads, n) <==> Met(t.beads, n)
      {
      }
    }
  }

  function TrackAll(t: Tables, ready: set<Id>, events: seq<Event>): set<Id>
    decreases events
  {
    if events == [] then ready
    else match Apply(t, events[0])
      case Ok(next) => TrackAll(next, Track(t.beads, next.beads, ready, events[0]), events[1..])
      case Err(_) => TrackAll(t, ready, events[1..])
  }

  /** Over any history of creations, claims, closes and crashes, the set kept up step by step
      is the set that an unrestricted ready query would return at the end. */
  lemma {:induction false} IncrementalReadyIsExact(t: Tables, events: seq<Event>)
    ensures TrackAll(t, ReadyBeads(t.beads, None), events) == ReadyBeads(Replay(t, events).beads, None)
    decreases events
  {
    if events != [] {
      match Apply(t, events[0])
      case Ok(next) =>
        TrackStep(t, events[0]);
        IncrementalReadyIsExact(next, events[1..]);
      case Err(_) => IncrementalReadyIsExact(t, events[1..]);
    }
  }

  // ---- lost work is offered again ----------------------------------------

  /** Ready is: open, with every need there and closed as passed. */
  lemma ReadyMeans(beads: Beads, b: Id, rig: Option<string>)
    ensures b in ReadyBeads(beads, rig) <==>
            && b in beads && beads[b].status == Open && (rig == None || rig == Some(beads[b].rig))
            && forall n :: n in beads[b].needs ==>
                 n in beads && beads[n].status == Closed && beads[n].outcome == Some(Pass)
    ensures IsReady(beads, b) == if b !in beads then Err(UnknownBead(b)) else Ok(b in ReadyBeads(beads, None))
  {
  }

  /** Neither closes `b` nor ends the session. */
  predicate LeavesHeld(e: Event, b: Id, session: string) {
    match e
    case BeadClosed(id, _, _) => id != b
    case SessionStopped(s) => s != session
    case SessionCrashed(s) => s != session
    case _ => true
  }

  ghost predicate HeldAndReady(t: Tables, b: Id, session: string) {
    && session in t.sessions && t.sessions[session] == Alive
    && b in t.beads && t.beads[b].status == InProgress && t.beads[b].claimedBy == Some(session)
    && forall n :: n in t.beads[b].needs ==> Met(t.beads, n)
  }

  lemma HeldStaysHeld(t: Tables, e: Event, b: Id, session: string)
    requires HeldAndReady(t, b, session) && LeavesHeld(e, b, session) && Apply(t, e).Ok?
    ensures HeldAndReady(Apply(t, e).value, b, session)
  {
    var next := Apply(t, e).value;
    ApplyExtends(t, e);
    forall n | n in next.beads[b].needs
      ensures Met(next.beads, n)
    {
      assert Met(t.beads, n) && n in t.beads;
    }
  }

  lemma {:induction false} HeldThroughHistory(t: Tables, events: seq<Event>, b: Id, session: string)
    requires HeldAndReady(t, b, session) && forall e :: e in events ==> LeavesHeld(e, b, session)
    ensures HeldAndReady(Replay(t, events), b, session)
    decreases events
  {
    if events != [] {
      assert events[0] in events;
      match Apply(t, events[0])
      case Ok(next) =>
        HeldStaysHeld(t, events[0], b, session);
        HeldThroughHistory(next, events[1..], b, session);
      case Err(_) => HeldThroughHistory(t, events[1..], b, session);
    }
  }

  /** No work is lost with a worker: a ready bead that a live session claims and has not closed when it
      crashes, whatever happened in between, is ready again right then, and any session can claim it. */
  lemma LostWorkIsOfferedAgain(t: Tables, b: Id, session: string, events: seq<Event>, other: string)
    requires Ready(t.beads, b) && session in t.sessions && t.sessions[session] == Alive
    requires forall e :: e in events ==> LeavesHeld(e, b, session)
    ensures Apply(t, BeadClaimed(b, session)).Ok?
    ensures var later := Replay(Apply(t, BeadClaimed(b, session)).value, events);
            && Apply(later, SessionCrashed(session)).Ok?
            && var after := Apply(later, SessionCrashed(session)).value;
               && Ready(after.beads, b) && b in ReadyBeads(after.beads, None)
               && after.sessions[session] == Crashed
               && Apply(after, BeadClaimed(b, other)).Ok?
               && HeldBy(Apply(after, BeadClaimed(b, other)).value.beads[b], other)
  {
    var claimed := Apply(t, BeadClaimed(b, session)).value;
    forall n | n in t.beads[b].needs
      ensures Met(claimed.beads, n)
    {
      assert Met(t.beads, n) && n != b;
    }
    HeldThroughHistory(claimed, events, b, session);
    var later := Replay(claimed, events);
    CrashGivesBack(later, session);
    var after := Apply(later, SessionCrashed(session)).value;
    forall n | n in after.beads[b].needs
      ensures Met(after.beads, n)
    {
      assert Met(later.beads, n) && n != b;
    }
  }
}
