/** Finalizing a run against the mutable ledger, and the life of a validated formula from cook to
    its last verdict. */
module Finalize {
  import opened Wrappers
  import opened NeedsGraph
  import opened Ids
  import opened Ledger
  import opened Readiness
  import opened DeadNeeds
  import opened Runtime
  import opened RunSafety
  import opened Cook
  import Validate

  lemma {:induction false} ToSkipDistinct(beads: Beads, ctx: RunContext, k: nat)
    requires RunIntact(beads, ctx) && k <= |ctx.steps|
    ensures NoDuplicates(ToSkipAnchors(beads, ctx, k))
    ensures forall b :: b in ToSkipAnchors(beads, ctx, k) ==> b in AnchorSet(ctx) && Pending(beads, b)
  {
    forall b | b in ToSkipAnchors(beads, ctx, k)
      ensures b in AnchorSet(ctx) && Pending(beads, b)
    {
      ToSkipAnchorsAre(beads, ctx, k, b);
    }
    if k > 0 {
      ToSkipDistinct(beads, ctx, k - 1);
      ToSkipAnchorsSnoc(beads, ctx, k);
      ToSkipAnchorsAre(beads, ctx, k - 1, ctx.anchors[ctx.steps[k - 1]]);
    }
  }

  lemma SkipOneMore(beads: Beads, some: set<Id>, b: Id)
    requires b in beads && b !in some
    ensures CloseBead(SkipAll(beads, some), b, Skipped, None) == SkipAll(beads, some + {b})
  {
  }

  /** Close each listed bead as skipped; on open beads, each listed once, no close is refused. */
  method SkipEach(ledger: Ledger, toSkip: seq<Id>)
    requires NoDuplicates(toSkip) && forall b :: b in toSkip ==> Pending(ledger.beads, b)
    modifies ledger
    ensures ledger.counters == old(ledger.counters) && ledger.sessions == old(ledger.sessions)
    ensures ledger.beads == SkipAll(old(ledger.beads), Elements(toSkip))
  {
    ghost var before := ledger.beads;
    for i := 0 to |toSkip|
      invariant ledger.beads == SkipAll(before, Elements(toSkip[..i]))
      invariant ledger.counters == old(ledger.counters) && ledger.sessions == old(ledger.sessions)
    {
      assert toSkip[i] in toSkip && toSkip[i] !in Elements(toSkip[..i]);
      SkipOneMore(before, Elements(toSkip[..i]), toSkip[i]);
      assert toSkip[..i + 1] == toSkip[..i] + [toSkip[i]];
      ElementsAppend(toSkip[..i], toSkip[i]);
      var skip := ledger.Fold(BeadClosed(toSkip[i], Skipped, Plain(None)));
    }
    assert toSkip[..|toSkip|] == toSkip;
  }

  lemma VerdictAvailable(beads: Beads, ctx: RunContext)
    requires RunIntact(beads, ctx)
    ensures Verdict(beads, ctx).Ok?
    ensures !exists s :: s in ctx.steps && ReachesCycle(OpenGraph(beads), ctx.anchors[s])
  {
    if beads[ctx.root].status != Closed {
      QuiescenceIsExact(beads, ctx);
    }
    forall s | s in ctx.steps
      ensures !ReachesCycle(OpenGraph(beads), ctx.anchors[s])
    {
      AnchorReachesNoCycle(beads, ctx, ctx.anchors[s]);
    }
  }

  /** Close the unreachable anchors as skipped, then the root with the run's outcome. On an intact
      run the verdict is always available and no close is refused. */
  method FinalizeIfQuiescent(ledger: Ledger, ctx: RunContext) returns (finalized: bool)
    requires RunIntact(ledger.beads, ctx)
    modifies ledger
    ensures Verdict(old(ledger.beads), ctx).Ok?
    ensures ledger.counters == old(ledger.counters) && ledger.sessions == old(ledger.sessions)
    ensures match Verdict(old(ledger.beads), ctx).value
            case NotQuiescent => !finalized && ledger.beads == old(ledger.beads)
            case Finalize(outcome, _, _, _, toSkip) =>
              && finalized
              && ledger.beads == CloseBead(SkipAll(old(ledger.beads), Elements(toSkip)), ctx.root, outcome, None)
  {
    VerdictAvailable(ledger.beads, ctx);
    var r := Finalization(ledger.beads, ctx);
    match r.value {
      case NotQuiescent => return false;
      case Finalize(outcome, _, _, _, toSkip) =>
        ToSkipDistinct(ledger.beads, ctx, |ctx.steps|);
        assert toSkip == ToSkipAnchors(ledger.beads, ctx, |ctx.steps|);
        assert ctx.root !in Elements(toSkip);
        SkipEach(ledger, toSkip);
        var close := ledger.Fold(BeadClosed(ctx.root, outcome, Plain(None)));
        return true;
    }
  }

  /** The run is whole, no walk from one of its anchors can meet a cycle, and while the root is
      open the verdict is there and says to finalize exactly when the run is quiet. */
  ghost predicate SafeAt(now: Beads, ctx: RunContext) {
    && RunIntact(now, ctx)
    && (forall a :: a in AnchorSet(ctx) ==> !ReachesCycle(OpenGraph(now), a))
    && (now[ctx.root].status != Closed ==>
          Verdict(now, ctx).Ok? && (Verdict(now, ctx).value.Finalize? <==> Quiet(now, ctx)))
  }

  lemma IntactIsSafe(now: Beads, ctx: RunContext)
    requires RunIntact(now, ctx)
    ensures SafeAt(now, ctx)
  {
    forall a | a in AnchorSet(ctx)
      ensures !ReachesCycle(OpenGraph(now), a)
    {
      AnchorReachesNoCycle(now, ctx, a);
    }
    if now[ctx.root].status != Closed {
      QuiescenceIsExact(now, ctx);
    }
  }

  /** A formula with no S4, S6 or S7 violation cooks, and its run is safe in every ledger that any
      later history leads to. */
  lemma ValidatedRunIsSafeForever(t: Tables, prefix: string, rig: string, raw: seq<Validate.RawStep>,
                                  extraRootNeeds: seq<Id>, events: seq<Event>)
    requires CanCook(t, prefix, raw, extraRootNeeds)
    ensures var cooked := Cooked(t, prefix, rig, Assemble(raw), extraRootNeeds);
            cooked.Ok? && SafeAt(Replay(cooked.value.0, events).beads, cooked.value.1)
  {
    ValidatedFormulaCooks(t, prefix, rig, raw, extraRootNeeds);
    var r := Cooked(t, prefix, rig, Assemble(raw), extraRootNeeds).value;
    ReplayExtends(r.0, events);
    HistoryKeepsRun(r.0.beads, Replay(r.0, events).beads, r.1);
    IntactIsSafe(Replay(r.0, events).beads, r.1);
  }

  // ---- a root that passes although it could never run --------------------

  /** The one step of a run fails softly. */
  function SoftFailure(a: Id, session: string): seq<Event> {
    [BeadClaimed(a, session), BeadClosed(a, Fail, Plain(Some(SoftFail)))]
  }

  lemma OneAnchor(beads: Beads, ctx: RunContext, s: string)
    requires ValidContext(ctx) && ctx.steps == [s]
    ensures AnchorSet(ctx) == {ctx.anchors[s]}
  {
    assert s in ctx.steps;
  }

  lemma SoftFailureReplayed(t: Tables, a: Id, session: string)
    requires a in t.beads && t.beads[a].status == Open
    ensures var after := Replay(t, SoftFailure(a, session)).beads;
            && after.Keys == t.beads.Keys && (forall b :: b in t.beads && b != a ==> after[b] == t.beads[b])
            && after[a].needs == t.beads[a].needs
            && after[a].status == Closed && after[a].outcome == Some(Fail) && after[a].disposition == Some(SoftFail)
  {
    var events := SoftFailure(a, session);
    var claimed := Apply(t, events[0]).value;
    var closed := Apply(claimed, events[1]).value;
    assert events[1..][1..] == [] && Replay(claimed, events[1..]) == Replay(closed, []);
  }

  lemma OneStep(beads: Beads, ctx: RunContext, s: string, kinds: set<AnchorKind>)
    requires ValidContext(ctx) && ctx.steps == [s]
    ensures StepsOf(beads, ctx, kinds, 1) == if Kind(beads, ctx.anchors[s]) in kinds then [s] else []
  {
    assert StepsOf(beads, ctx, kinds, 0) == [] && [] + [s] == [s];
  }

  lemma SoftFinalVerdict(beads: Beads, ctx: RunContext, s: string)
    requires ValidContext(ctx) && ctx.steps == [s] && Kind(beads, ctx.anchors[s]) == SoftFailed
    ensures FinalVerdict(beads, ctx) == Finalize(Pass, RunSoftFail, [s], [], [])
  {
    OneStep(beads, ctx, s, {SoftFailed});
    OneStep(beads, ctx, s, {HardFailed});
    OneStep(beads, ctx, s, {WasSkipped, ToSkip});
    OneStep(beads, ctx, s, {ToSkip});
    var none: seq<string> := [];
    assert |AnchorsOf(ctx, none)| == 0;
  }

  lemma SoftVerdict(beads: Beads, ctx: RunContext, s: string)
    requires ValidContext(ctx) && ctx.steps == [s] && ctx.root in beads && beads[ctx.root].status != Closed
    requires Kind(beads, ctx.anchors[s]) == SoftFailed
    ensures Verdict(beads, ctx) == Ok(Finalize(Pass, RunSoftFail, [s], [], []))
  {
    SoftFinalVerdict(beads, ctx, s);
    assert KindAt(beads, ctx, 0) == SoftFailed;
    assert NoStop(beads, ctx);
  }

  lemma RootClosed(t: Tables, ctx: RunContext, v: RunVerdict)
    requires v.Finalize? && v.outcome == Pass && v.toSkip == [] && Pending(t.beads, ctx.root)
    ensures Met(Replay(t, FinalEvents(ctx, v)).beads, ctx.root)
  {
    var close := BeadClosed(ctx.root, Pass, Plain(None));
    assert FinalEvents(ctx, v) == [close] && [close][1..] == [];
    assert Replay(t, [close]) == Replay(Apply(t, close).value, []);
  }

  /** A run of one step as cooked, with that step failed softly. */
  lemma SoftFailureKeepsRun(before: Beads, cooked: Tables, ctx: RunContext, s: string, session: string)
    requires FreshRun(before, cooked.beads, [Validate.RawStep(Some(s), [])], ctx, [])
    ensures s in ctx.anchors && ctx.steps == [s]
    ensures var beads := Replay(cooked, SoftFailure(ctx.anchors[s], session)).beads;
            && RunIntact(beads, ctx) && beads[ctx.root] == cooked.beads[ctx.root]
            && Kind(beads, ctx.anchors[s]) == SoftFailed
  {
    assert CarriesStep([Validate.RawStep(Some(s), [])], cooked.beads, ctx, 0);
    assert ctx.steps == [s];
    var a := ctx.anchors[s];
    OneAnchor(cooked.beads, ctx, s);
    SoftFailureReplayed(cooked, a, session);
    ReplayExtends(cooked, SoftFailure(a, session));
    HistoryKeepsRun(cooked.beads, Replay(cooked, SoftFailure(a, session)).beads, ctx);
  }

  /** A run of one step: when the step has failed softly, the root can never run by the walk's reading,
      and yet finalization closes it as passed. */
  lemma SoftFailurePassesRoot(before: Beads, cooked: Tables, ctx: RunContext, s: string, session: string)
    requires FreshRun(before, cooked.beads, [Validate.RawStep(Some(s), [])], ctx, [])
    ensures s in ctx.anchors && ValidContext(ctx)
    ensures var t := Replay(cooked, SoftFailure(ctx.anchors[s], session));
            && CanNeverRun(t.beads, ctx.root)
            && Verdict(t.beads, ctx) == Ok(Finalize(Pass, RunSoftFail, [s], [], []))
            && Met(Replay(t, FinalEvents(ctx, Verdict(t.beads, ctx).value)).beads, ctx.root)
  {
    SoftFailureKeepsRun(before, cooked, ctx, s, session);
    var t := Replay(cooked, SoftFailure(ctx.anchors[s], session));
    assert Elements([]) == {} && t.beads[ctx.root].needs == AnchorSet(ctx);
    SoftVerdict(t.beads, ctx, s);
    PassedRootCouldNotRun(t.beads, ctx);
    RootClosed(t, ctx, Verdict(t.beads, ctx).value);
  }
}
