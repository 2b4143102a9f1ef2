/** What holds of a cooked run in every ledger it can reach: its verdict is exact, survives a
    crash half-way through finalization, and its skips are never premature. */
module RunSafety {
  import opened Wrappers
  import opened NeedsGraph
  import opened Ledger
  import opened Readiness
  import opened DeadNeeds
  import opened Runtime

  ghost function AnchorSet(ctx: RunContext): set<Id>
    requires ValidContext(ctx)
  {
    set s | s in ctx.steps :: ctx.anchors[s]
  }

  ghost function AnchorGraph(beads: Beads, ctx: RunContext): Graph
    requires ValidContext(ctx)
  {
    map a | a in AnchorSet(ctx) && a in beads :: beads[a].needs
  }

  /** What cook leaves behind: one bead per step beside the root, needing only one another,
      without a cycle. */
  ghost predicate RunIntact(beads: Beads, ctx: RunContext) {
    && ValidContext(ctx)
    && ctx.root in beads && ctx.root !in AnchorSet(ctx)
    && (forall i, j :: 0 <= i < j < |ctx.steps| ==> ctx.anchors[ctx.steps[i]] != ctx.anchors[ctx.steps[j]])
    && (forall a :: a in AnchorSet(ctx) ==> a in beads && beads[a].needs <= AnchorSet(ctx))
    && Acyclic(AnchorGraph(beads, ctx))
  }

  /** No event breaks a run apart. */
  lemma HistoryKeepsRun(before: Beads, after: Beads, ctx: RunContext)
    requires RunIntact(before, ctx) && Extends(before, after)
    ensures RunIntact(after, ctx)
  {
    forall a | a in AnchorSet(ctx)
      ensures a in after && after[a].needs == before[a].needs
    {
      assert a in before;
    }
    assert AnchorGraph(after, ctx) == AnchorGraph(before, ctx);
  }

  // ---- no false cycle ----------------------------------------------------

  lemma {:induction false} StaysInRun(beads: Beads, ctx: RunContext, p: seq<Id>, i: nat)
    requires RunIntact(beads, ctx)
    requires IsPath(OpenGraph(beads), p) && p[0] in AnchorSet(ctx) && i < |p|
    ensures p[i] in AnchorSet(ctx)
  {
    if i > 0 {
      StaysInRun(beads, ctx, p, i - 1);
      assert Hop(OpenGraph(beads), p, i - 1);
    }
  }

  /** The walk that starts at an anchor of an intact run can raise no cycle error. */
  lemma AnchorReachesNoCycle(beads: Beads, ctx: RunContext, a: Id)
    requires RunIntact(beads, ctx) && a in AnchorSet(ctx)
    ensures !ReachesCycle(OpenGraph(beads), a)
  {
    if p :| IsLasso(OpenGraph(beads), a, p) {
      var g := AnchorGraph(beads, ctx);
      forall i | 0 <= i < |p| - 1
        ensures Hop(g, p, i)
      {
        StaysInRun(beads, ctx, p, i);
        assert Hop(OpenGraph(beads), p, i);
      }
      assert IsLasso(g, a, p);
      LassoHoldsCycle(g, a);
    }
  }

  // ---- quiescence is exact -----------------------------------------------

  /** Nothing is running and nothing could be started. */
  ghost predicate Quiet(beads: Beads, ctx: RunContext)
    requires RunIntact(beads, ctx)
  {
    forall a :: a in AnchorSet(ctx) ==> beads[a].status != InProgress && !Ready(beads, a)
  }

  lemma NeverRunsIsNotReady(beads: Beads, a: Id)
    requires CanNeverRun(beads, a)
    ensures !Ready(beads, a)
  {
    var p :| DeadChain(beads, a, p);
    assert !Met(beads, p[0]);
  }

  /** With nothing running and nothing ready, every open anchor is one that can never run: the
      others would wait for each other in a circle. */
  lemma QuietMeansStuck(beads: Beads, ctx: RunContext, a: Id)
    requires RunIntact(beads, ctx) && Quiet(beads, ctx)
    requires a in AnchorSet(ctx) && beads[a].status == Open
    ensures CanNeverRun(beads, a)
  {
    var g := AnchorGraph(beads, ctx);
    var trap := set x | x in AnchorSet(ctx) && beads[x].status == Open && !CanNeverRun(beads, x);
    forall u | u in trap
      ensures HasEdgeInto(g, u, trap)
    {
      var n :| n in beads[u].needs && !Met(beads, n);
      if Dead(beads, n) || CanNeverRun(beads, n) {
        DeadNeedSuffices(beads, u, n);
      }
      assert n in trap && Edge(g, u, n);
    }
    if a in trap {
      TrapHoldsCycle(g, trap, a);
    }
  }

  /** The verdict on an intact run with an open root is to finalize exactly when nothing is
      running and nothing is ready: such a run never waits for ever. */
  lemma QuiescenceIsExact(beads: Beads, ctx: RunContext)
    requires RunIntact(beads, ctx) && beads[ctx.root].status != Closed
    ensures Verdict(beads, ctx).Ok?
    ensures Verdict(beads, ctx).value.Finalize? <==> Quiet(beads, ctx)
  {
    forall i | 0 <= i < |ctx.steps|
      ensures ctx.anchors[ctx.steps[i]] in AnchorSet(ctx) && KindAt(beads, ctx, i) != Missing
    {
    }
    if NoStop(beads, ctx) {
      forall a | a in AnchorSet(ctx)
        ensures beads[a].status != InProgress && !Ready(beads, a)
      {
        var s :| s in ctx.steps && ctx.anchors[s] == a;
        var i :| 0 <= i < |ctx.steps| && ctx.steps[i] == s;
        assert !StopsAt(beads, ctx, i);
        if beads[a].status == Open {
          NeverRunsIsNotReady(beads, a);
        }
      }
    } else {
      var i :| 0 <= i < |ctx.steps| && StopsAt(beads, ctx, i);
      var a := ctx.anchors[ctx.steps[i]];
      if Quiet(beads, ctx) && beads[a].status == Open {
        QuietMeansStuck(beads, ctx, a);
      }
    }
  }

  // ---- a crash half-way through finalization -----------------------------

  function SkipAll(beads: Beads, some: set<Id>): Beads {
    map b | b in beads ::
      if b in some then beads[b].(status := Closed, outcome := Some(Skipped), disposition := None) else beads[b]
  }

  /** Closing beads that can never run as skipped changes nobody else's prospects. */
  lemma SkippingKeepsProspects(beads: Beads, some: set<Id>, a: Id)
    requires forall b :: b in some ==> Pending(beads, b) && CanNeverRun(beads, b)
    ensures CanNeverRun(SkipAll(beads, some), a) <==> CanNeverRun(beads, a)
  {
    if p :| DeadChain(beads, a, p) {
      ChainSurvivesSkips(beads, some, a, p);
    }
    if p :| DeadChain(SkipAll(beads, some), a, p) {
      ChainBeforeSkips(beads, some, a, p);
    }
  }

  lemma {:induction false} ChainSurvivesSkips(beads: Beads, some: set<Id>, a: Id, p: seq<Id>)
    requires forall b :: b in some ==> Pending(beads, b)
    requires DeadChain(beads, a, p)
    ensures CanNeverRun(SkipAll(beads, some), a)
    decreases p
  {
    if |p| > 1 {
      ChainSurvivesSkips(beads, some, p[0], p[1..]);
    }
    DeadNeedSuffices(SkipAll(beads, some), a, p[0]);
  }

  lemma {:induction false} ChainBeforeSkips(beads: Beads, some: set<Id>, a: Id, p: seq<Id>)
    requires forall b :: b in some ==> Pending(beads, b) && CanNeverRun(beads, b)
    requires DeadChain(SkipAll(beads, some), a, p)
    ensures CanNeverRun(beads, a)
    decreases p
  {
    if |p| > 1 {
      ChainBeforeSkips(beads, some, p[0], p[1..]);
    }
    DeadNeedSuffices(beads, a, p[0]);
  }

  function Without(s: seq<Id>, gone: set<Id>): seq<Id> {
    if s == [] then []
    else Without(s[..|s| - 1], gone) + if s[|s| - 1] in gone then [] else [s[|s| - 1]]
  }

  /** `after` is `beads` with the anchors in `some`, all due to be skipped, closed as skipped. */
  ghost predicate OnlySkipped(beads: Beads, after: Beads, ctx: RunContext, some: set<Id>)
    requires ValidContext(ctx)
  {
    forall i :: 0 <= i < |ctx.steps| ==>
      if ctx.anchors[ctx.steps[i]] in some then KindAt(beads, ctx, i) == ToSkip && KindAt(after, ctx, i) == WasSkipped
      else KindAt(after, ctx, i) == KindAt(beads, ctx, i)
  }

  lemma {:induction false} OtherListsUnchanged(beads: Beads, after: Beads, ctx: RunContext, some: set<Id>,
                                               kinds: set<AnchorKind>, k: nat)
    requires ValidContext(ctx) && k <= |ctx.steps| && OnlySkipped(beads, after, ctx, some)
    requires WasSkipped in kinds <==> ToSkip in kinds
    ensures StepsOf(after, ctx, kinds, k) == StepsOf(beads, ctx, kinds, k)
  {
    if k > 0 {
      OtherListsUnchanged(beads, after, ctx, some, kinds, k - 1);
    }
  }

  ghost function ToSkipAnchors(beads: Beads, ctx: RunContext, k: nat): seq<Id>
    requires ValidContext(ctx) && k <= |ctx.steps|
  {
    StepsOfAreSteps(beads, ctx, {ToSkip}, k);
    AnchorsOf(ctx, StepsOf(beads, ctx, {ToSkip}, k))
  }

  lemma ToSkipAnchorsSnoc(beads: Beads, ctx: RunContext, k: nat)
    requires ValidContext(ctx) && 0 < k <= |ctx.steps|
    ensures ToSkipAnchors(beads, ctx, k) ==
            ToSkipAnchors(beads, ctx, k - 1) +
            if KindAt(beads, ctx, k - 1) == ToSkip then [ctx.anchors[ctx.steps[k - 1]]] else []
  {
    StepsOfAreSteps(beads, ctx, {ToSkip}, k);
    StepsOfAreSteps(beads, ctx, {ToSkip}, k - 1);
  }

  lemma {:induction false} ToSkipShrinks(beads: Beads, after: Beads, ctx: RunContext, some: set<Id>, k: nat)
    requires ValidContext(ctx) && k <= |ctx.steps| && OnlySkipped(beads, after, ctx, some)
    ensures ToSkipAnchors(after, ctx, k) == Without(ToSkipAnchors(beads, ctx, k), some)
  {
    if k > 0 {
      ToSkipShrinks(beads, after, ctx, some, k - 1);
      ToSkipAnchorsSnoc(beads, ctx, k);
      ToSkipAnchorsSnoc(after, ctx, k);
      var full, init := ToSkipAnchors(beads, ctx, k), ToSkipAnchors(beads, ctx, k - 1);
      if KindAt(beads, ctx, k - 1) == ToSkip {
        assert full[..|full| - 1] == init;
      } else {
        assert full == init;
      }
      assert ToSkipAnchors(after, ctx, k - 1) + [] == ToSkipAnchors(after, ctx, k - 1);
    }
  }

  lemma {:induction false} ToSkipAnchorsAre(beads: Beads, ctx: RunContext, k: nat, b: Id)
    requires ValidContext(ctx) && k <= |ctx.steps|
    ensures b in ToSkipAnchors(beads, ctx, k) <==>
            exists i :: 0 <= i < k && ctx.anchors[ctx.steps[i]] == b && KindAt(beads, ctx, i) == ToSkip
  {
    if k > 0 {
      ToSkipAnchorsAre(beads, ctx, k - 1, b);
      ToSkipAnchorsSnoc(beads, ctx, k);
    }
  }

  /** Crash-idempotence: whatever part of `toSkip` was already closed as skipped when the process
      died, asking again gives the same verdict with exactly that part gone from `toSkip`. */
  lemma FinalizationSurvivesCrash(beads: Beads, ctx: RunContext, some: set<Id>)
    requires ValidContext(ctx)
    requires Verdict(beads, ctx).Ok? && Verdict(beads, ctx).value.Finalize?
    requires forall b :: b in some ==> b in Verdict(beads, ctx).value.toSkip && b != ctx.root
    ensures var v := Verdict(beads, ctx).value;
            Verdict(SkipAll(beads, some), ctx) == Ok(v.(toSkip := Without(v.toSkip, some)))
  {
    var after, n := SkipAll(beads, some), |ctx.steps|;
    forall b | b in some
      ensures Kind(beads, b) == ToSkip
    {
      ToSkipAnchorsAre(beads, ctx, n, b);
    }
    SkippedKinds(beads, ctx, some);
    forall i | 0 <= i < n
      ensures !StopsAt(after, ctx, i)
    {
      assert !StopsAt(beads, ctx, i);
    }
    OtherListsUnchanged(beads, after, ctx, some, {SoftFailed}, n);
    OtherListsUnchanged(beads, after, ctx, some, {HardFailed}, n);
    OtherListsUnchanged(beads, after, ctx, some, {WasSkipped, ToSkip}, n);
    ToSkipShrinks(beads, after, ctx, some, n);
  }

  lemma SkippedKinds(beads: Beads, ctx: RunContext, some: set<Id>)
    requires ValidContext(ctx)
    requires forall b :: b in some ==> Kind(beads, b) == ToSkip
    ensures OnlySkipped(beads, SkipAll(beads, some), ctx, some)
  {
    forall i | 0 <= i < |ctx.steps|
      ensures var a := ctx.anchors[ctx.steps[i]];
              Kind(SkipAll(beads, some), a) == if a in some then WasSkipped else Kind(beads, a)
    {
      SkippingKeepsProspects(beads, some, ctx.anchors[ctx.steps[i]]);
    }
  }

  // ---- closing the run ---------------------------------------------------

  /** After the skips and the root close, every bead of the run is closed and the run is never
      finalized again. */
  lemma FinalizedRunIsClosed(beads: Beads, ctx: RunContext)
    requires RunIntact(beads, ctx)
    requires Verdict(beads, ctx).Ok? && Verdict(beads, ctx).value.Finalize?
    ensures var v := Verdict(beads, ctx).value;
            var skipped := SkipAll(beads, Elements(v.toSkip));
            var after := CloseBead(skipped, ctx.root, v.outcome, None);
            && (forall a :: a in AnchorSet(ctx) ==> after[a].status == Closed)
            && Verdict(after, ctx) == Ok(NotQuiescent)
  {
    var v := Verdict(beads, ctx).value;
    forall a | a in AnchorSet(ctx)
      ensures beads[a].status == Closed || a in v.toSkip
    {
      var s :| s in ctx.steps && ctx.anchors[s] == a;
      var i :| 0 <= i < |ctx.steps| && ctx.steps[i] == s;
      assert !StopsAt(beads, ctx, i);
      ToSkipAnchorsAre(beads, ctx, |ctx.steps|, a);
    }
  }

  // ---- a skip is never premature -----------------------------------------

  /** Of the beads of the group only ready ones are claimed, and only ready or claimed ones pass; what
      happens to other beads, and which beads are created, is free. */
  ghost predicate Disciplined(beads: Beads, group: set<Id>, e: Event) {
    match e
    case BeadCreated(_, _, _) => true
    case BeadClaimed(id, _) => id in group ==> Ready(beads, id)
    case BeadClosed(id, outcome, _) => id in group && outcome == Pass ==> Ready(beads, id) || IsRunning(beads, id)
    case SessionWoke(_) => true
    case SessionStopped(_) => true
    case SessionCrashed(_) => true
  }

  predicate IsRunning(beads: Beads, id: Id) {
    id in beads && beads[id].status == InProgress
  }

  /** Every accepted event of the history obeys the discipline when it happens. */
  ghost predicate DisciplinedHistory(t: Tables, group: set<Id>, events: seq<Event>)
    decreases events
  {
    events == [] ||
    match Apply(t, events[0])
    case Ok(next) => Disciplined(t.beads, group, events[0]) && DisciplinedHistory(next, group, events[1..])
    case Err(_) => DisciplinedHistory(t, group, events[1..])
  }

  /** Neither claims nor passes a bead of the group. */
  predicate Elsewhere(group: set<Id>, e: Event) {
    match e
    case BeadCreated(_, _, _) => true
    case BeadClaimed(id, _) => id !in group
    case BeadClosed(id, outcome, _) => id !in group || outcome != Pass
    case SessionWoke(_) => true
    case SessionStopped(_) => true
    case SessionCrashed(_) => true
  }

  /** So cooking runs, skipping what cannot run, closing roots and working on other runs are free. */
  lemma {:induction false} ElsewhereIsDisciplined(t: Tables, group: set<Id>, events: seq<Event>)
    requires forall e :: e in events ==> Elsewhere(group, e)
    ensures DisciplinedHistory(t, group, events)
    decreases events
  {
    if events != [] {
      assert events[0] in events;
      match Apply(t, events[0])
      case Ok(next) => ElsewhereIsDisciplined(next, group, events[1..]);
      case Err(_) => ElsewhereIsDisciplined(t, group, events[1..]);
    }
  }

  /** What finalization writes for a verdict: the skips, then the root. */
  ghost function FinalEvents(ctx: RunContext, v: RunVerdict): seq<Event>
    requires v.Finalize?
  {
    seq(|v.toSkip|, i requires 0 <= i < |v.toSkip| => BeadClosed(v.toSkip[i], Skipped, Plain(None))) +
    [BeadClosed(ctx.root, v.outcome, Plain(None))]
  }

  lemma FinalizationIsDisciplined(t: Tables, group: set<Id>, ctx: RunContext, v: RunVerdict)
    requires v.Finalize? && ctx.root !in group
    ensures DisciplinedHistory(t, group, FinalEvents(ctx, v))
  {
    ElsewhereIsDisciplined(t, group, FinalEvents(ctx, v));
  }

  ghost predicate ClaimsMet(beads: Beads, group: set<Id>) {
    forall b, n :: b in group && IsRunning(beads, b) && n in beads[b].needs ==> Met(beads, n)
  }

  /** The group holds, of what its beads need, whatever exists. */
  ghost predicate HoldsItsNeeds(beads: Beads, group: set<Id>) {
    group <= beads.Keys && forall b, n :: b in group && n in beads[b].needs && n in beads ==> n in group
  }

  /** Nothing that a bead of the group lacks is created later. */
  ghost predicate LackingStays(beads: Beads, group: set<Id>, events: seq<Event>)
    requires group <= beads.Keys
  {
    forall e, b :: e in events && b in group && Creates(e, beads) ==> e.id !in beads[b].needs
  }

  predicate Creates(e: Event, beads: Beads) {
    e.BeadCreated? && e.id !in beads
  }

  lemma {:induction false} ChainSurvivesEvent(t: Tables, group: set<Id>, e: Event, b: Id, p: seq<Id>)
    requires HoldsItsNeeds(t.beads, group) && ClaimsMet(t.beads, group) && LackingStays(t.beads, group, [e])
    requires Disciplined(t.beads, group, e) && Apply(t, e).Ok?
    requires b in group && DeadChain(t.beads, b, p)
    ensures CanNeverRun(Apply(t, e).value.beads, b)
    decreases p
  {
    var after := Apply(t, e).value.beads;
    ApplyExtends(t, e);
    assert e in [e];
    if |p| > 1 {
      ChainSurvivesEvent(t, group, e, p[0], p[1..]);
      assert p[1] in t.beads[p[0]].needs && !Met(t.beads, p[1]);
    }
    DeadNeedSuffices(after, b, p[0]);
  }

  lemma EventKeepsGroup(t: Tables, group: set<Id>, e: Event)
    requires HoldsItsNeeds(t.beads, group) && ClaimsMet(t.beads, group) && LackingStays(t.beads, group, [e])
    requires Disciplined(t.beads, group, e) && Apply(t, e).Ok?
    ensures HoldsItsNeeds(Apply(t, e).value.beads, group) && ClaimsMet(Apply(t, e).value.beads, group)
  {
    var after := Apply(t, e).value.beads;
    ApplyExtends(t, e);
    assert e in [e];
    forall n | Met(t.beads, n)
      ensures Met(after, n)
    {
      assert n in t.beads;
    }
    forall b, n | b in group && n in after[b].needs && n in after
      ensures n in group
    {
      assert b in t.beads;
    }
    forall b, n | b in group && IsRunning(after, b) && n in after[b].needs
      ensures Met(after, n)
    {
      assert b in t.beads;
    }
  }

  lemma LackingLater(t: Tables, group: set<Id>, events: seq<Event>)
    requires events != [] && group <= t.beads.Keys && LackingStays(t.beads, group, events)
    ensures LackingStays(t.beads, group, [events[0]]) && LackingStays(t.beads, group, events[1..])
    ensures match Apply(t, events[0])
            case Ok(next) => group <= next.beads.Keys && LackingStays(next.beads, group, events[1..])
            case Err(_) => true
  {
    assert events[0] in events && forall e :: e in events[1..] ==> e in events;
    if Apply(t, events[0]).Ok? {
      ApplyExtends(t, events[0]);
    }
  }

  /** Once its needs can never all pass, a bead stays that way through every history that obeys the
      discipline on it and on what it waits for, and creates nothing these lack: it never becomes
      ready, and it never passes. */
  lemma {:induction false} NeverRunsIsPermanent(t: Tables, group: set<Id>, events: seq<Event>, b: Id)
    requires HoldsItsNeeds(t.beads, group) && ClaimsMet(t.beads, group) && LackingStays(t.beads, group, events)
    requires DisciplinedHistory(t, group, events) && b in group && CanNeverRun(t.beads, b)
    ensures CanNeverRun(Replay(t, events).beads, b)
    ensures !Ready(Replay(t, events).beads, b)
    ensures Met(Replay(t, events).beads, b) ==> Met(t.beads, b)
    decreases events
  {
    NeverRunsIsNotReady(t.beads, b);
    if events != [] {
      LackingLater(t, group, events);
      match Apply(t, events[0])
      case Ok(next) =>
        var p :| DeadChain(t.beads, b, p);
        ChainSurvivesEvent(t, group, events[0], b, p);
        EventKeepsGroup(t, group, events[0]);
        NeverRunsIsPermanent(next, group, events[1..], b);
        assert !Met(t.beads, p[0]);
      case Err(_) => NeverRunsIsPermanent(t, group, events[1..], b);
    }
  }

  /** The anchors of an intact run are such a group, and lack nothing. */
  lemma DeadAnchorStaysDead(t: Tables, ctx: RunContext, events: seq<Event>, a: Id)
    requires RunIntact(t.beads, ctx) && ClaimsMet(t.beads, AnchorSet(ctx)) && a in AnchorSet(ctx)
    requires DisciplinedHistory(t, AnchorSet(ctx), events) && CanNeverRun(t.beads, a)
    ensures CanNeverRun(Replay(t, events).beads, a)
    ensures !Ready(Replay(t, events).beads, a)
    ensures Met(Replay(t, events).beads, a) ==> Met(t.beads, a)
  {
    NeverRunsIsPermanent(t, AnchorSet(ctx), events, a);
  }

  // ---- a root that can never run and passes all the same -----------------

  /** Beyond the group it fails: a root waits for its anchors, and finalization may pass it. Exactly:
      the root of a run that finalizes as passed could never run if and only if an anchor had
      failed softly. */
  lemma PassedRootCouldNotRun(beads: Beads, ctx: RunContext)
    requires RunIntact(beads, ctx) && beads[ctx.root].needs == AnchorSet(ctx)
    requires Verdict(beads, ctx).Ok? && Verdict(beads, ctx).value.Finalize? && Verdict(beads, ctx).value.outcome == Pass
    ensures CanNeverRun(beads, ctx.root) <==> Verdict(beads, ctx).value.disposition == RunSoftFail
    ensures var v := Verdict(beads, ctx).value;
            Pending(beads, ctx.root) &&
            Met(CloseBead(SkipAll(beads, Elements(v.toSkip)), ctx.root, v.outcome, None), ctx.root)
  {
    var n := |ctx.steps|;
    StepsOfAreSteps(beads, ctx, {SoftFailed}, n);
    StepsOfAreSteps(beads, ctx, {HardFailed}, n);
    StepsOfAreSteps(beads, ctx, {WasSkipped, ToSkip}, n);
    if Verdict(beads, ctx).value.disposition == RunSoftFail {
      var soft := StepsOf(beads, ctx, {SoftFailed}, n);
      assert soft != [] && soft[0] in soft;
      DeadNeedSuffices(beads, ctx.root, ctx.anchors[soft[0]]);
    }
    if p :| DeadChain(beads, ctx.root, p) {
      AnchorOfPassedRun(beads, ctx, p[0]);
    }
  }

  lemma AnchorOfPassedRun(beads: Beads, ctx: RunContext, a: Id)
    requires RunIntact(beads, ctx) && a in AnchorSet(ctx)
    requires Verdict(beads, ctx).Ok? && Verdict(beads, ctx).value.Finalize? && Verdict(beads, ctx).value.outcome == Pass
    ensures beads[a].status == Closed
    ensures beads[a].outcome != Some(Pass) ==> Verdict(beads, ctx).value.disposition == RunSoftFail
  {
    var n := |ctx.steps|;
    StepsOfAreSteps(beads, ctx, {SoftFailed}, n);
    StepsOfAreSteps(beads, ctx, {HardFailed}, n);
    StepsOfAreSteps(beads, ctx, {WasSkipped, ToSkip}, n);
    var s :| s in ctx.steps && ctx.anchors[s] == a;
    var i :| 0 <= i < n && ctx.steps[i] == s;
    assert !StopsAt(beads, ctx, i);
    assert KindAt(beads, ctx, i) == Kind(beads, a);
    assert s !in StepsOf(beads, ctx, {HardFailed}, n) && s !in StepsOf(beads, ctx, {WasSkipped, ToSkip}, n);
  }
}
