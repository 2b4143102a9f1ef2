/** What "can never run" is worth: exactly the beads that no orderly history makes ready. */
module Progress {
  import opened Wrappers
  import opened NeedsGraph
  import opened Ledger
  import opened Readiness
  import opened DeadNeeds
  import opened Runtime
  import opened RunSafety

  // ---- where work can go on ----------------------------------------------

  ghost function PendingSet(beads: Beads): set<Id> {
    set b | b in beads && Pending(beads, b)
  }

  /** Waiting for something that may still come to pass. */
  ghost predicate Hopeful(beads: Beads, b: Id) {
    Pending(beads, b) && !CanNeverRun(beads, b)
  }

  predicate Workable(beads: Beads, b: Id) {
    Ready(beads, b) || IsRunning(beads, b)
  }

  lemma HopefulNeed(beads: Beads, b: Id) returns (n: Id)
    requires Hopeful(beads, b) && !Workable(beads, b)
    ensures n in beads[b].needs && Hopeful(beads, n) && Edge(OpenGraph(beads), b, n)
  {
    n :| n in beads[b].needs && !Met(beads, n);
    if Dead(beads, n) || CanNeverRun(beads, n) {
      DeadNeedSuffices(beads, b, n);
    }
  }

  ghost predicate IsTrail(beads: Beads, p: seq<Id>) {
    && IsPath(OpenGraph(beads), p) && NoDuplicates(p) && !ReachesCycle(OpenGraph(beads), p[0])
    && Elements(p) <= PendingSet(beads)
  }

  lemma LongerTrail(beads: Beads, p: seq<Id>, n: Id)
    requires IsTrail(beads, p) && Edge(OpenGraph(beads), p[|p| - 1], n) && Pending(beads, n)
    ensures IsTrail(beads, p + [n])
    ensures PendingSet(beads) - Elements(p + [n]) < PendingSet(beads) - Elements(p)
  {
    var g, q := OpenGraph(beads), p + [n];
    PathSnoc(g, p, n);
    if k :| 0 <= k < |p| && p[k] == n {
      assert q[k] == q[|q| - 1] && IsLasso(g, p[0], q);
    }
    ElementsAppend(p, n);
    assert n !in Elements(p) && n in PendingSet(beads);
  }

  /** Behind a bead with hope there is one that can be worked on, unless beads wait in a circle. */
  lemma {:induction false} WorkBehind(beads: Beads, p: seq<Id>) returns (m: Id)
    requires IsTrail(beads, p) && Hopeful(beads, p[|p| - 1])
    ensures Hopeful(beads, m) && Workable(beads, m)
    decreases PendingSet(beads) - Elements(p)
  {
    var u := p[|p| - 1];
    if Workable(beads, u) {
      return u;
    }
    var n := HopefulNeed(beads, u);
    LongerTrail(beads, p, n);
    m := WorkBehind(beads, p + [n]);
  }

  // ---- passing one bead --------------------------------------------------

  function Passing(m: Id): Event {
    BeadClosed(m, Pass, Plain(None))
  }

  lemma PassingIsAccepted(t: Tables, m: Id)
    requires Pending(t.beads, m)
    ensures Apply(t, Passing(m)) == Ok(t.(beads := CloseBead(t.beads, m, Pass, None)))
    ensures PendingSet(CloseBead(t.beads, m, Pass, None)) == PendingSet(t.beads) - {m}
    ensures |PendingSet(CloseBead(t.beads, m, Pass, None))| < |PendingSet(t.beads)|
  {
    assert m in PendingSet(t.beads);
  }

  lemma {:induction false} NoNewDeadChain(beads: Beads, m: Id, b: Id, p: seq<Id>)
    requires Pending(beads, m) && DeadChain(CloseBead(beads, m, Pass, None), b, p)
    ensures DeadChain(beads, b, p)
    decreases p
  {
    if |p| > 1 {
      NoNewDeadChain(beads, m, p[0], p[1..]);
    }
  }

  lemma PassingKeepsHope(beads: Beads, m: Id, b: Id)
    requires Pending(beads, m) && b != m && Hopeful(beads, b) && !ReachesCycle(OpenGraph(beads), b)
    ensures var after := CloseBead(beads, m, Pass, None);
            Hopeful(after, b) && !ReachesCycle(OpenGraph(after), b)
  {
    var after := CloseBead(beads, m, Pass, None);
    if p :| DeadChain(after, b, p) {
      NoNewDeadChain(beads, m, b, p);
    }
    if p :| IsLasso(OpenGraph(after), b, p) {
      forall i | 0 <= i < |p| - 1
        ensures Hop(OpenGraph(beads), p, i)
      {
        assert Hop(OpenGraph(after), p, i);
      }
      assert IsLasso(OpenGraph(beads), b, p);
    }
  }

  /** A bead with hope, and no circle behind it, can be made ready by passing what is ready or running,
      one bead at a time. */
  lemma {:induction false} CanBeMadeReady(t: Tables, group: set<Id>, b: Id) returns (events: seq<Event>)
    requires Hopeful(t.beads, b) && t.beads[b].status == Open && !ReachesCycle(OpenGraph(t.beads), b)
    ensures forall e :: e in events ==> e.BeadClosed?
    ensures DisciplinedHistory(t, group, events) && Ready(Replay(t, events).beads, b)
    decreases |PendingSet(t.beads)|
  {
    if Ready(t.beads, b) {
      return [];
    }
    var start := [b];
    assert Elements(start) == {b};
    var m := WorkBehind(t.beads, start);
    PassingIsAccepted(t, m);
    PassingKeepsHope(t.beads, m, b);
    var next := Apply(t, Passing(m)).value;
    var rest := CanBeMadeReady(next, group, b);
    events := [Passing(m)] + rest;
    assert events[1..] == rest;
  }

  ghost predicate NeverReady(t: Tables, group: set<Id>, b: Id, events: seq<Event>)
    requires group <= t.beads.Keys
  {
    DisciplinedHistory(t, group, events) && LackingStays(t.beads, group, events) ==> !Ready(Replay(t, events).beads, b)
  }

  /** Exactly: an open bead with no circle behind it can never run if and only if no history that obeys
      the discipline on its group, and creates nothing the group lacks, ever makes it ready. */
  lemma CanNeverRunIsExact(t: Tables, group: set<Id>, b: Id)
    requires HoldsItsNeeds(t.beads, group) && ClaimsMet(t.beads, group)
    requires b in group && t.beads[b].status == Open && !ReachesCycle(OpenGraph(t.beads), b)
    ensures CanNeverRun(t.beads, b) <==> forall events :: NeverReady(t, group, b, events)
  {
    if CanNeverRun(t.beads, b) {
      forall events
        ensures NeverReady(t, group, b, events)
      {
        if DisciplinedHistory(t, group, events) && LackingStays(t.beads, group, events) {
          NeverRunsIsPermanent(t, group, events, b);
        }
      }
    } else {
      var events := CanBeMadeReady(t, group, b);
      assert !NeverReady(t, group, b, events);
    }
  }

  /** So for the open anchors of an intact run, whose walks meet no circle. */
  lemma DeadAnchorIsExact(t: Tables, ctx: RunContext, a: Id)
    requires RunIntact(t.beads, ctx) && ClaimsMet(t.beads, AnchorSet(ctx))
    requires a in AnchorSet(ctx) && t.beads[a].status == Open
    ensures AnchorSet(ctx) <= t.beads.Keys
    ensures CanNeverRun(t.beads, a) <==> forall events :: NeverReady(t, AnchorSet(ctx), a, events)
  {
    AnchorReachesNoCycle(t.beads, ctx, a);
    CanNeverRunIsExact(t, AnchorSet(ctx), a);
  }
}
