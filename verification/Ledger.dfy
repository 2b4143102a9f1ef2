/** The state tables and the fold: what each bead event does to them. An event that the fold
    rejects is rolled back with its transaction and leaves no trace. */
module Ledger {
  import opened Wrappers
  import opened NeedsGraph
  import opened Ids

  datatype Status = Open | InProgress | Closed

  datatype Outcome = Pass | Fail | Skipped

  datatype Disposition = HardFail | SoftFail

  /** One row of `beads` with its rows of `deps`. */
  datatype Bead = Bead(
    rig: string,
    status: Status,
    claimedBy: Option<string>,
    outcome: Option<Outcome>,
    disposition: Option<Disposition>,
    needs: set<Id>)

  type Beads = map<Id, Bead>

  datatype Session = Alive | Stopped | Crashed

  datatype Tables = Tables(beads: Beads, counters: Counters, sessions: map<string, Session>)

  datatype WorkOutcome = Shipped | NoOp | Blocked | Abandoned

  /** What a close says beside its outcome. */
  datatype Report = Report(
    transient: bool,
    disposition: Option<Disposition>,
    work: Option<WorkOutcome>,
    commit: Option<string>,
    branch: Option<string>)

  function Plain(disposition: Option<Disposition>): Report {
    Report(false, disposition, None, None, None)
  }

  datatype Event =
    | BeadCreated(id: Id, rig: string, needs: seq<Id>)
    | BeadClaimed(id: Id, session: string)
    | BeadClosed(id: Id, outcome: Outcome, report: Report)
    | SessionWoke(session: string)
    | SessionStopped(session: string)
    | SessionCrashed(session: string)

  datatype LedgerError =
    | UnknownBead(id: Id)
    | AlreadyExists(id: Id)
    | DuplicateNeeds(id: Id)
    | MalformedBeadId(id: Id)
    | TransientWithoutFail(id: Id)
    | DispositionWithoutFail(id: Id)
    | WorkDisagrees(id: Id)
    | ArtifactWithoutShipping(id: Id)
    | ShippingWithoutArtifact(id: Id)
    | NotOpen(id: Id)
    | AlreadyClosed(id: Id)
    | UnknownSession(session: string)
    | AlreadyRegistered(session: string)
    | AlreadyEnded(session: string)

  function NewBead(rig: string, needs: set<Id>): Bead {
    Bead(rig, Open, None, None, None, needs)
  }

  predicate HeldBy(bead: Bead, session: string) {
    bead.status == InProgress && bead.claimedBy == Some(session)
  }

  function Reopened(bead: Bead): Bead {
    bead.(status := Open, claimedBy := None)
  }

  /** The fold of one event; `Err` means the transaction rolled back. */
  function Apply(t: Tables, e: Event): Result<Tables, LedgerError> {
    match e
    case BeadCreated(id, rig, needs) =>
      if id in t.beads then Err(AlreadyExists(id))
      else if !NoDuplicates(needs) then Err(DuplicateNeeds(id))
      else (match BumpCounter(t.counters, id)
            case Err(_) => Err(MalformedBeadId(id))
            case Ok(counters) =>
              Ok(Tables(t.beads[id := NewBead(rig, set n | n in needs)], counters, t.sessions)))
    case BeadClaimed(id, session) =>
      if id !in t.beads then Err(UnknownBead(id))
      else if t.beads[id].status != Open then Err(NotOpen(id))
      else Ok(t.(beads := t.beads[id := t.beads[id].(status := InProgress, claimedBy := Some(session))]))
    case BeadClosed(id, outcome, report) =>
      if Incoherent(id, outcome, report).Some? then Err(Incoherent(id, outcome, report).value)
      else if id !in t.beads then Err(UnknownBead(id))
      else if t.beads[id].status == Closed then Err(AlreadyClosed(id))
      else Ok(t.(beads := CloseBead(t.beads, id, outcome, report.disposition)))
    case SessionWoke(session) =>
      if session in t.sessions then Err(AlreadyRegistered(session))
      else Ok(t.(sessions := t.sessions[session := Alive]))
    case SessionStopped(session) =>
      if NotLive(t.sessions, session).Some? then Err(NotLive(t.sessions, session).value)
      else Ok(t.(sessions := t.sessions[session := Stopped]))
    case SessionCrashed(session) =>
      if NotLive(t.sessions, session).Some? then Err(NotLive(t.sessions, session).value)
      else Ok(t.(sessions := t.sessions[session := Crashed], beads := ReleaseAll(t.beads, session)))
  }

  function NotLive(sessions: map<string, Session>, session: string): Option<LedgerError> {
    if session !in sessions then Some(UnknownSession(session))
    else if sessions[session] != Alive then Some(AlreadyEnded(session))
    else None
  }

  predicate AssertsSuccess(work: WorkOutcome) {
    work == Shipped || work == NoOp
  }

  /** What is wrong with a close's report: only a failure is transient or has a disposition, the work's
      outcome goes with the bead's, and exactly shipped work has an artifact. */
  function Incoherent(id: Id, outcome: Outcome, r: Report): (e: Option<LedgerError>)
    ensures e == None <==>
            && (r.transient || r.disposition.Some? ==> outcome == Fail)
            && (r.work.Some? ==> outcome == if AssertsSuccess(r.work.value) then Pass else Fail)
            && (r.work == Some(Shipped) ==> r.commit.Some? && r.branch.Some?)
            && (r.work != Some(Shipped) ==> r.commit.None? && r.branch.None?)
    ensures outcome != Fail && r.transient ==> e == Some(TransientWithoutFail(id))
    ensures outcome != Fail && !r.transient && r.disposition.Some? ==> e == Some(DispositionWithoutFail(id))
    ensures e == Some(WorkDisagrees(id)) ==>
        r.work.Some? && outcome != if AssertsSuccess(r.work.value) then Pass else Fail
    ensures e == Some(ShippingWithoutArtifact(id)) ==> r.work == Some(Shipped) && outcome == Pass
    ensures e == Some(ArtifactWithoutShipping(id)) ==> r.work != Some(Shipped)
  {
    if r.transient && outcome != Fail then Some(TransientWithoutFail(id))
    else if r.disposition.Some? && outcome != Fail then Some(DispositionWithoutFail(id))
    else match r.work
      case None => if r.commit.Some? || r.branch.Some? then Some(ArtifactWithoutShipping(id)) else None
      case Some(work) =>
        if AssertsSuccess(work) && outcome != Pass then Some(WorkDisagrees(id))
        else if !AssertsSuccess(work) && outcome != Fail then Some(WorkDisagrees(id))
        else if work == Shipped && !(r.commit.Some? && r.branch.Some?) then Some(ShippingWithoutArtifact(id))
        else if work != Shipped && (r.commit.Some? || r.branch.Some?) then Some(ArtifactWithoutShipping(id))
        else None
  }

  function ReleaseAll(beads: Beads, session: string): Beads {
    map b | b in beads :: if HeldBy(beads[b], session) then Reopened(beads[b]) else beads[b]
  }

  function CloseBead(beads: Beads, id: Id, outcome: Outcome, disposition: Option<Disposition>): Beads
    requires id in beads
  {
    beads[id := beads[id].(status := Closed, outcome := Some(outcome), disposition := disposition)]
  }

  /** A whole history: rejected events change nothing. */
  function Replay(t: Tables, events: seq<Event>): Tables
    decreases events
  {
    if events == [] then t
    else match Apply(t, events[0])
      case Ok(next) => Replay(next, events[1..])
      case Err(_) => Replay(t, events[1..])
  }

  /** All or nothing. */
  function ApplyBatch(t: Tables, events: seq<Event>): Result<Tables, LedgerError>
    decreases events
  {
    if events == [] then Ok(t)
    else match Apply(t, events[0])
      case Ok(next) => ApplyBatch(next, events[1..])
      case Err(e) => Err(e)
  }

  const EMPTY := Tables(map[], map[], map[])

  // ---- the mutable ledger ------------------------------------------------

  class Ledger {
    var beads: Beads
    var counters: Counters
    var sessions: map<string, Session>

    ghost function View(): Tables
      reads this
    {
      Tables(beads, counters, sessions)
    }

    constructor ()
      ensures View() == EMPTY
    {
      beads, counters, sessions := map[], map[], map[];
    }

    /** The three inserts of a creation: the row, one `deps` row per need, the counter. */
    method FoldCreated(id: Id, rig: string, needs: seq<Id>) returns (r: Result<(), LedgerError>)
      modifies this
      ensures match Apply(old(View()), BeadCreated(id, rig, needs))
              case Ok(next) => r.Ok? && View() == next
              case Err(e) => r == Err(e)
    {
      if id in beads {
        return Err(AlreadyExists(id));
      }
      var deps: set<Id> := {};
      for i := 0 to |needs|
        invariant deps == set n | n in needs[..i]
        invariant NoDuplicates(needs[..i])
        invariant View() == old(View())
      {
        if needs[i] in deps {
          assert !NoDuplicates(needs) by {
            var j :| 0 <= j < i && needs[j] == needs[i];
          }
          return Err(DuplicateNeeds(id));
        }
        deps := deps + {needs[i]};
        assert needs[..i + 1] == needs[..i] + [needs[i]];
      }
      assert needs[..|needs|] == needs;
      beads := beads[id := NewBead(rig, deps)];
      match BumpCounter(counters, id) {
        case Err(_) => r := Err(MalformedBeadId(id));
        case Ok(raised) =>
          counters := raised;
          r := Ok(());
      }
    }

    /** `UPDATE … WHERE claimed_by = session AND status = 'in_progress'`, row by row. */
    method ReleaseHeld(session: string)
      modifies this`beads
      ensures beads == ReleaseAll(old(beads), session)
    {
      var todo := beads.Keys;
      while todo != {}
        invariant todo <= beads.Keys == old(beads).Keys
        invariant forall b :: b in todo ==> beads[b] == old(beads)[b]
        invariant forall b :: b in beads && b !in todo ==> beads[b] == ReleaseAll(old(beads), session)[b]
      {
        var b :| b in todo;
        if HeldBy(beads[b], session) {
          beads := beads[b := Reopened(beads[b])];
        }
        todo := todo - {b};
      }
      assert beads == ReleaseAll(old(beads), session);
    }

    /** The end of a live session; a crash gives its beads back. */
    method FoldEnded(session: string, ended: Session) returns (r: Result<(), LedgerError>)
      requires ended != Alive
      modifies this
      ensures match Apply(old(View()), if ended == Crashed then SessionCrashed(session) else SessionStopped(session))
              case Ok(next) => r.Ok? && View() == next
              case Err(err) => r == Err(err) && View() == old(View())
    {
      if session !in sessions {
        return Err(UnknownSession(session));
      }
      if sessions[session] != Alive {
        return Err(AlreadyEnded(session));
      }
      sessions := sessions[session := ended];
      if ended == Crashed {
        ReleaseHeld(session);
      }
      return Ok(());
    }

    /** Fold one event inside the caller's transaction. On `Err` the tables may be half written. */
    method Fold(e: Event) returns (r: Result<(), LedgerError>)
      modifies this
      ensures match Apply(old(View()), e)
              case Ok(next) => r.Ok? && View() == next
              case Err(err) => r == Err(err)
    {
      match e {
        case BeadCreated(id, rig, needs) => r := FoldCreated(id, rig, needs);
        case BeadClaimed(id, session) =>
          if id !in beads { return Err(UnknownBead(id)); }
          if beads[id].status != Open { return Err(NotOpen(id)); }
          beads := beads[id := beads[id].(status := InProgress, claimedBy := Some(session))];
          r := Ok(());
        case BeadClosed(id, outcome, report) =>
          var bad := Incoherent(id, outcome, report);
          if bad.Some? { return Err(bad.value); }
          if id !in beads { return Err(UnknownBead(id)); }
          if beads[id].status == Closed { return Err(AlreadyClosed(id)); }
          beads := CloseBead(beads, id, outcome, report.disposition);
          r := Ok(());
        case SessionWoke(session) =>
          if session in sessions { return Err(AlreadyRegistered(session)); }
          sessions := sessions[session := Alive];
          r := Ok(());
        case SessionStopped(session) => r := FoldEnded(session, Stopped);
        case SessionCrashed(session) => r := FoldEnded(session, Crashed);
      }
    }

    /** One transaction: every event folds, or the tables are what they were. */
    method AppendBatch(events: seq<Event>) returns (r: Result<(), LedgerError>)
      modifies this
      ensures match ApplyBatch(old(View()), events)
              case Ok(next) => r.Ok? && View() == next
              case Err(e) => r == Err(e) && View() == old(View())
    {
      var savedBeads, savedCounters, savedSessions := beads, counters, sessions;
      for i := 0 to |events|
        invariant ApplyBatch(old(View()), events) == ApplyBatch(View(), events[i..])
      {
        r := Fold(events[i]);
        if r.Err? {
          beads, counters, sessions := savedBeads, savedCounters, savedSessions;
          return;
        }
      }
      r := Ok(());
    }
  }

  // ---- what every event keeps --------------------------------------------

  ghost predicate TablesOk(t: Tables) {
    CountersTrack(t.beads.Keys, t.counters)
  }

  /** Beads are never removed, their `deps` rows never change, and a closed bead is final. */
  ghost predicate Extends(before: Beads, after: Beads) {
    forall b {:trigger b in before} :: b in before ==>
      && b in after
      && after[b].needs == before[b].needs
      && (before[b].status == Closed ==> after[b] == before[b])
  }

  lemma ApplyExtends(t: Tables, e: Event)
    requires Apply(t, e).Ok?
    ensures Extends(t.beads, Apply(t, e).value.beads)
  {
  }

  lemma {:induction false} ReplayExtends(t: Tables, events: seq<Event>)
    ensures Extends(t.beads, Replay(t, events).beads)
    decreases events
  {
    if events != [] {
      match Apply(t, events[0])
      case Ok(next) =>
        ApplyExtends(t, events[0]);
        ReplayExtends(next, events[1..]);
      case Err(_) => ReplayExtends(t, events[1..]);
    }
  }

  lemma ApplyKeepsEnded(t: Tables, e: Event, session: string)
    requires Apply(t, e).Ok? && session in t.sessions && t.sessions[session] != Alive
    ensures session in Apply(t, e).value.sessions && Apply(t, e).value.sessions[session] == t.sessions[session]
  {
  }

  /** A session that has ended stays as it ended, and a bead it holds then, or is given later, leaves it
      only by being closed: no crash gives the bead back any more. */
  lemma {:induction false} EndedSessionKeepsBead(t: Tables, events: seq<Event>, session: string, b: Id)
    requires session in t.sessions && t.sessions[session] != Alive
    requires b in t.beads && HeldBy(t.beads[b], session)
    ensures var after := Replay(t, events);
            && session in after.sessions && after.sessions[session] == t.sessions[session]
            && b in after.beads && (HeldBy(after.beads[b], session) || after.beads[b].status == Closed)
    decreases events
  {
    if events != [] {
      match Apply(t, events[0])
      case Ok(next) =>
        ApplyKeepsEnded(t, events[0], session);
        ApplyExtends(t, events[0]);
        assert b in next.beads;
        if next.beads[b].status == Closed {
          ReplayExtends(next, events[1..]);
          ReplayKeepsEnded(next, events[1..], session);
        } else {
          EndedSessionKeepsBead(next, events[1..], session, b);
        }
      case Err(_) => EndedSessionKeepsBead(t, events[1..], session, b);
    }
  }

  lemma {:induction false} ReplayKeepsEnded(t: Tables, events: seq<Event>, session: string)
    requires session in t.sessions && t.sessions[session] != Alive
    ensures session in Replay(t, events).sessions && Replay(t, events).sessions[session] == t.sessions[session]
    decreases events
  {
    if events != [] {
      match Apply(t, events[0])
      case Ok(next) =>
        ApplyKeepsEnded(t, events[0], session);
        ReplayKeepsEnded(next, events[1..], session);
      case Err(_) => ReplayKeepsEnded(t, events[1..], session);
    }
  }

  lemma ApplyKeepsTables(t: Tables, e: Event)
    requires TablesOk(t) && Apply(t, e).Ok?
    ensures TablesOk(Apply(t, e).value)
  {
    if e.BeadCreated? {
      BumpKeepsTrack(t.beads.Keys, t.counters, e.id);
      assert Apply(t, e).value.beads.Keys == t.beads.Keys + {e.id};
    } else {
      assert Apply(t, e).value.beads.Keys == t.beads.Keys;
    }
  }

  lemma {:induction false} ReplayKeepsTables(t: Tables, events: seq<Event>)
    requires TablesOk(t)
    ensures TablesOk(Replay(t, events))
    decreases events
  {
    if events != [] {
      match Apply(t, events[0])
      case Ok(next) =>
        ApplyKeepsTables(t, events[0]);
        ReplayKeepsTables(next, events[1..]);
      case Err(_) => ReplayKeepsTables(t, events[1..]);
    }
  }

  /** Over every history from an empty ledger: the next id of a prefix is unused and well formed
      whenever one is handed out, and any other history that creates the same beads, in whatever
      order, has the same counters. */
  lemma IdsFreshOverHistories(events: seq<Event>, others: seq<Event>, prefix: string)
    ensures var t := Replay(EMPTY, events);
            var u := Replay(EMPTY, others);
            && (match NextBeadId(t.counters, prefix)
                case Ok(id) => id !in t.beads && ParseBeadId(id) == Some((prefix, High(t.counters, prefix) + 1))
                case Err(_) => !ValidPrefix(prefix) || High(t.counters, prefix) >= I64_MAX)
            && (t.beads.Keys == u.beads.Keys ==> t.counters == u.counters)
  {
    var empty := EMPTY;
    var t, u := Replay(empty, events), Replay(empty, others);
    ReplayKeepsTables(empty, events);
    ReplayKeepsTables(empty, others);
    NextIsFresh(t.beads.Keys, t.counters, prefix);
    if t.beads.Keys == u.beads.Keys {
      CountersDetermined(t.beads.Keys, t.counters, u.counters);
    }
  }

  // ---- what each event does, row by row ----------------------------------

  ghost predicate OnlyChanges(before: Beads, after: Beads, id: Id) {
    && after.Keys == before.Keys + {id}
    && forall b :: b in before && b != id ==> after[b] == before[b]
  }

  /** A creation is accepted exactly for a new, well-formed id whose needs are all different, and adds
      that one row: open, unclaimed, needing exactly what it says. */
  lemma CreationMeans(t: Tables, id: Id, rig: string, needs: seq<Id>)
    ensures Apply(t, BeadCreated(id, rig, needs)).Ok? <==>
            id !in t.beads && NoDuplicates(needs) && ParseBeadId(id).Some?
    ensures match Apply(t, BeadCreated(id, rig, needs))
            case Err(e) =>
              e == if id in t.beads then AlreadyExists(id)
                   else if !NoDuplicates(needs) then DuplicateNeeds(id)
                   else MalformedBeadId(id)
            case Ok(next) =>
              && OnlyChanges(t.beads, next.beads, id) && next.sessions == t.sessions
              && next.beads[id].rig == rig && next.beads[id].status == Open && next.beads[id].claimedBy == None
              && next.beads[id].outcome == None && next.beads[id].disposition == None
              && forall n :: n in next.beads[id].needs <==> n in needs
  {
  }

  /** A claim is accepted exactly for an open bead, and hands that one over. */
  lemma ClaimMeans(t: Tables, id: Id, session: string)
    ensures Apply(t, BeadClaimed(id, session)).Ok? <==> id in t.beads && t.beads[id].status == Open
    ensures match Apply(t, BeadClaimed(id, session))
            case Err(e) => e == if id in t.beads then NotOpen(id) else UnknownBead(id)
            case Ok(next) =>
              && OnlyChanges(t.beads, next.beads, id) && next.sessions == t.sessions && next.counters == t.counters
              && next.beads[id].status == InProgress && next.beads[id].claimedBy == Some(session)
              && next.beads[id].rig == t.beads[id].rig && next.beads[id].outcome == t.beads[id].outcome
              && next.beads[id].disposition == t.beads[id].disposition && next.beads[id].needs == t.beads[id].needs
  {
  }

  /** A close with a coherent report is accepted exactly for a bead that is not closed yet, and records
      the outcome and the disposition on that one. */
  lemma CloseMeans(t: Tables, id: Id, outcome: Outcome, report: Report)
    ensures Apply(t, BeadClosed(id, outcome, report)).Ok? <==>
            Incoherent(id, outcome, report) == None && id in t.beads && t.beads[id].status != Closed
    ensures match Apply(t, BeadClosed(id, outcome, report))
            case Err(e) =>
              Incoherent(id, outcome, report) == None ==>
                  e == if id in t.beads then AlreadyClosed(id) else UnknownBead(id)
            case Ok(next) =>
              && OnlyChanges(t.beads, next.beads, id) && next.sessions == t.sessions && next.counters == t.counters
              && next.beads[id].status == Closed && next.beads[id].outcome == Some(outcome)
              && next.beads[id].disposition == report.disposition && next.beads[id].claimedBy == t.beads[id].claimedBy
              && next.beads[id].rig == t.beads[id].rig && next.beads[id].needs == t.beads[id].needs
  {
  }

  /** A session registers once, ends once, and only ends when live; neither waking nor stopping touches
      a bead. */
  lemma SessionMeans(t: Tables, session: string)
    ensures Apply(t, SessionWoke(session)) ==
            if session in t.sessions then Err(AlreadyRegistered(session))
            else Ok(Tables(t.beads, t.counters, t.sessions[session := Alive]))
    ensures Apply(t, SessionStopped(session)) ==
            if session !in t.sessions then Err(UnknownSession(session))
            else if t.sessions[session] != Alive then Err(AlreadyEnded(session))
            else Ok(Tables(t.beads, t.counters, t.sessions[session := Stopped]))
    ensures Apply(t, SessionCrashed(session)).Ok? <==> session in t.sessions && t.sessions[session] == Alive
    ensures Apply(t, SessionCrashed(session)).Err? ==>
            Apply(t, SessionCrashed(session)) == Apply(t, SessionStopped(session))
  {
  }

  /** What a crash gives back: every bead in progress under the session is open and unclaimed, with its
      needs as they were, and no other bead is touched. */
  lemma CrashGivesBack(t: Tables, session: string)
    requires Apply(t, SessionCrashed(session)).Ok?
    ensures var after := Apply(t, SessionCrashed(session)).value;
            && after.beads.Keys == t.beads.Keys && after.counters == t.counters
            && after.sessions == t.sessions[session := Crashed]
            && (forall b :: b in t.beads ==>
                  if t.beads[b].status == InProgress && t.beads[b].claimedBy == Some(session) then
                    && after.beads[b].status == Open && after.beads[b].claimedBy == None
                    && after.beads[b].needs == t.beads[b].needs && after.beads[b].rig == t.beads[b].rig
                    && after.beads[b].outcome == t.beads[b].outcome
                    && after.beads[b].disposition == t.beads[b].disposition
                  else after.beads[b] == t.beads[b])
            && forall b :: b in after.beads ==>
                 !(after.beads[b].status == InProgress && after.beads[b].claimedBy == Some(session))
  {
    forall b | b in t.beads
      ensures b in ReleaseAll(t.beads, session)
    {
    }
  }
}
