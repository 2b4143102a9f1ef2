/** From formula to run: in every disciplined history of a cooked run, a step is worked on only after
    the steps it waits for have passed, and these are the only ones that must have passed. */
module ExpandRuns {
  import opened Wrappers
  import opened NeedsGraph
  import opened Ledger
  import opened Readiness
  import opened Runtime
  import opened RunSafety
  import opened ExpandNeeds
  import opened ExpandSafety
  import opened Prune
  import Braces
  import Condition
  import Cook
  import Expand
  import ExpandExact
  import Formula
  import Validate

  // ---- nothing starts before its needs -----------------------------------

  predicate Started(beads: Beads, b: Id) {
    b in beads && (beads[b].status == InProgress || Met(beads, b))
  }

  /** Among the beads of the group, whatever has started has all its needs passed. */
  ghost predicate InOrder(beads: Beads, group: set<Id>) {
    group <= beads.Keys && forall b, n :: b in group && Started(beads, b) && n in beads[b].needs ==> Met(beads, n)
  }

  lemma MetStays(t: Tables, e: Event, n: Id)
    requires Apply(t, e).Ok? && Met(t.beads, n)
    ensures Met(Apply(t, e).value.beads, n)
  {
    ApplyExtends(t, e);
    assert n in t.beads;
  }

  lemma EventKeepsOrder(t: Tables, e: Event, group: set<Id>)
    requires InOrder(t.beads, group) && Disciplined(t.beads, group, e) && Apply(t, e).Ok?
    ensures InOrder(Apply(t, e).value.beads, group)
  {
    var after := Apply(t, e).value.beads;
    ApplyExtends(t, e);
    forall b, n | b in group && Started(after, b) && n in after[b].needs
      ensures Met(after, n)
    {
      assert b in t.beads && n in t.beads[b].needs;
      assert Started(t.beads, b) || Ready(t.beads, b);
      MetStays(t, e, n);
    }
  }

  lemma {:induction false} HistoryKeepsOrder(t: Tables, events: seq<Event>, group: set<Id>)
    requires InOrder(t.beads, group) && DisciplinedHistory(t, group, events)
    ensures InOrder(Replay(t, events).beads, group)
    decreases events
  {
    if events != [] {
      match Apply(t, events[0])
      case Ok(next) =>
        EventKeepsOrder(t, events[0], group);
        HistoryKeepsOrder(next, events[1..], group);
      case Err(_) => HistoryKeepsOrder(t, events[1..], group);
    }
  }

  /** Whatever a started bead waits for, directly or not, has passed. */
  lemma {:induction false} StartedHasPassedBehind(beads: Beads, ctx: RunContext, p: seq<Id>)
    requires RunIntact(beads, ctx) && InOrder(beads, AnchorSet(ctx))
    requires IsPath(AnchorGraph(beads, ctx), p) && |p| >= 2 && Started(beads, p[0])
    ensures Met(beads, p[|p| - 1])
    decreases |p|
  {
    assert Hop(AnchorGraph(beads, ctx), p, 0);
    if |p| > 2 {
      PathTail(AnchorGraph(beads, ctx), p, 1);
      StartedHasPassedBehind(beads, ctx, p[1..]);
    }
  }

  // ---- from steps to beads -----------------------------------------------

  lemma AnchorEdge(steps: seq<Formula.Step>, beads: Beads, ctx: RunContext, u: string, v: string)
    requires Validate.WellFormed(Raw(steps)) && Cook.CarriesNeeds(Raw(steps), beads, ctx)
    requires Edge(NeedsGraphOf(steps), u, v)
    ensures u in ctx.steps && u in ctx.anchors && v in ctx.steps && v in ctx.anchors
    ensures Edge(AnchorGraph(beads, ctx), ctx.anchors[u], ctx.anchors[v])
  {
    NeedsGraphEdge(steps, u, v);
    var k :| StepNeeds(steps, k, u, v);
    assert Cook.CarriesStep(Raw(steps), beads, ctx, k);
    Cook.NeedsAreSteps(Raw(steps), beads, ctx, k, v);
  }

  lemma {:induction false} AnchorPath(steps: seq<Formula.Step>, beads: Beads, ctx: RunContext, p: seq<string>)
    returns (q: seq<Id>)
    requires Validate.WellFormed(Raw(steps)) && Cook.CarriesNeeds(Raw(steps), beads, ctx)
    requires IsPath(NeedsGraphOf(steps), p) && |p| >= 2
    ensures p[0] in ctx.anchors && p[|p| - 1] in ctx.anchors
    ensures IsPath(AnchorGraph(beads, ctx), q) && |q| >= 2
    ensures q[0] == ctx.anchors[p[0]] && q[|q| - 1] == ctx.anchors[p[|p| - 1]]
    decreases |p|
  {
    var g := AnchorGraph(beads, ctx);
    assert Hop(NeedsGraphOf(steps), p, 0);
    AnchorEdge(steps, beads, ctx, p[0], p[1]);
    var a, b := ctx.anchors[p[0]], ctx.anchors[p[1]];
    if |p| == 2 {
      q := [a, b];
      assert Hop(g, q, 0);
    } else {
      PathTail(NeedsGraphOf(steps), p, 1);
      var rest := AnchorPath(steps, beads, ctx, p[1..]);
      PathJoin(g, [a], rest);
      q := [a] + rest;
    }
  }

  /** What a step waits for in the validated formula has passed when its bead has started. */
  lemma StartedStepHasPassedBehind(out: seq<Formula.Step>, before: Beads, cooked: Tables, ctx: RunContext,
                                   extra: seq<Id>, events: seq<Event>, s: Formula.Step, n: string)
    requires Validate.WellFormed(Raw(out)) && Cook.FreshRun(before, cooked.beads, Raw(out), ctx, extra)
    requires DisciplinedHistory(cooked, AnchorSet(ctx), events)
    requires s in out && Awaits(NeedsGraphOf(out), s, n)
    ensures s.id.Some? && s.id.value in ctx.anchors && n in ctx.anchors
    ensures var beads := Replay(cooked, events).beads;
            Started(beads, ctx.anchors[s.id.value]) ==> Met(beads, ctx.anchors[n])
  {
    var j :| 0 <= j < |out| && out[j] == s;
    assert Raw(out)[j].id.Some?;
    var p := AwaitsPath(out, j, s.id.value, n);
    var q := AnchorPath(out, cooked.beads, ctx, p);
    AnchorsOpen(out, cooked.beads, ctx);
    PathAfterHistory(cooked, ctx, events, q);
  }

  lemma AnchorsOpen(out: seq<Formula.Step>, beads: Beads, ctx: RunContext)
    requires Cook.CarriesNeeds(Raw(out), beads, ctx)
    ensures forall a :: a in AnchorSet(ctx) ==> a in beads && beads[a].status == Open
  {
    forall a | a in AnchorSet(ctx)
      ensures a in beads && beads[a].status == Open
    {
      var s :| s in ctx.steps && ctx.anchors[s] == a;
      var i :| 0 <= i < |ctx.steps| && ctx.steps[i] == s;
      assert Cook.CarriesStep(Raw(out), beads, ctx, i);
    }
  }

  lemma PathAfterHistory(cooked: Tables, ctx: RunContext, events: seq<Event>, q: seq<Id>)
    requires RunIntact(cooked.beads, ctx) && DisciplinedHistory(cooked, AnchorSet(ctx), events)
    requires forall a :: a in AnchorSet(ctx) ==> a in cooked.beads && cooked.beads[a].status == Open
    requires IsPath(AnchorGraph(cooked.beads, ctx), q) && |q| >= 2
    ensures var beads := Replay(cooked, events).beads;
            Started(beads, q[0]) ==> Met(beads, q[|q| - 1])
  {
    var beads := Replay(cooked, events).beads;
    ReplayExtends(cooked, events);
    HistoryKeepsRun(cooked.beads, beads, ctx);
    HistoryKeepsOrder(cooked, events, AnchorSet(ctx));
    assert AnchorGraph(beads, ctx) == AnchorGraph(cooked.beads, ctx) by {
      forall a | a in AnchorSet(ctx)
        ensures a in beads && beads[a].needs == cooked.beads[a].needs
      {
        assert a in cooked.beads;
      }
    }
    if Started(beads, q[0]) {
      StartedHasPassedBehind(beads, ctx, q);
    }
  }

  // ---- and nothing else need have passed ---------------------------------

  /** In every disciplined history from the cooked run on, the step `s` starts only after the step
      `n` has passed. */
  ghost predicate RunsAfter(cooked: Tables, ctx: RunContext, s: string, n: string)
    requires ValidContext(ctx) && s in ctx.steps
  {
    forall events: seq<Event> ::
      DisciplinedHistory(cooked, AnchorSet(ctx), events) && Started(Replay(cooked, events).beads, ctx.anchors[s]) ==>
        n in ctx.steps && Met(Replay(cooked, events).beads, ctx.anchors[n])
  }

  /** Open beads that need nothing unmet but one another. */
  ghost predicate Runnable(beads: Beads, g: Graph, todo: set<Id>) {
    forall b :: b in todo ==>
      && b in beads && b in g && g[b] == beads[b].needs && beads[b].status == Open
      && forall n :: n in beads[b].needs ==> n in todo || Met(beads, n)
  }

  lemma SomeIsReady(beads: Beads, g: Graph, todo: set<Id>) returns (b: Id)
    requires Runnable(beads, g, todo) && Acyclic(g) && todo != {}
    ensures b in todo && Ready(beads, b)
  {
    b :| b in todo;
    if forall u :: u in todo ==> !Ready(beads, u) {
      forall u | u in todo
        ensures HasEdgeInto(g, u, todo)
      {
        UnreadyNeeds(beads, g, todo, u);
      }
      TrapHoldsCycle(g, todo, b);
    } else {
      b :| b in todo && Ready(beads, b);
    }
  }

  lemma UnreadyNeeds(beads: Beads, g: Graph, todo: set<Id>, u: Id)
    requires Runnable(beads, g, todo) && u in todo && !Ready(beads, u)
    ensures HasEdgeInto(g, u, todo)
  {
    var n :| n in beads[u].needs && !Met(beads, n);
    assert n in todo && Edge(g, u, n);
  }

  /** A ready bead is claimed and passes. */
  lemma PassOne(t: Tables, group: set<Id>, b: Id, session: string) returns (next: Tables)
    requires Ready(t.beads, b)
    ensures var claim, pass := BeadClaimed(b, session), BeadClosed(b, Pass, Plain(None));
            && Apply(t, claim).Ok? && Disciplined(t.beads, group, claim)
            && Apply(Apply(t, claim).value, pass) == Ok(next) && Disciplined(Apply(t, claim).value.beads, group, pass)
    ensures Met(next.beads, b) && next.beads.Keys == t.beads.Keys && next.beads[b].needs == t.beads[b].needs
    ensures forall x :: x in t.beads && x != b ==> next.beads[x] == t.beads[x]
  {
    var claimed := Apply(t, BeadClaimed(b, session)).value;
    next := Apply(claimed, BeadClosed(b, Pass, Plain(None))).value;
  }

  lemma PassFirst(t: Tables, group: set<Id>, b: Id, session: string, next: Tables, rest: seq<Event>)
    requires var claim, pass := BeadClaimed(b, session), BeadClosed(b, Pass, Plain(None));
             && Apply(t, claim).Ok? && Disciplined(t.beads, group, claim)
             && Apply(Apply(t, claim).value, pass) == Ok(next) && Disciplined(Apply(t, claim).value.beads, group, pass)
    requires DisciplinedHistory(next, group, rest)
    ensures var events := [BeadClaimed(b, session), BeadClosed(b, Pass, Plain(None))] + rest;
            DisciplinedHistory(t, group, events) && Replay(t, events) == Replay(next, rest)
  {
    var claim, pass := BeadClaimed(b, session), BeadClosed(b, Pass, Plain(None));
    var events, later := [claim, pass] + rest, [pass] + rest;
    assert events[1..] == later && later[1..] == rest;
    var claimed := Apply(t, claim).value;
    assert DisciplinedHistory(claimed, group, later) && Replay(claimed, later) == Replay(next, rest);
  }

  lemma RunnableWithout(beads: Beads, after: Beads, g: Graph, todo: set<Id>, b: Id)
    requires Runnable(beads, g, todo) && b in todo && after.Keys == beads.Keys && Met(after, b)
    requires forall x :: x in beads && x != b ==> after[x] == beads[x]
    ensures Runnable(after, g, todo - {b})
    ensures forall n :: Met(beads, n) ==> Met(after, n)
  {
  }

  /** Work off `todo` one ready bead after the other, then claim `last`: a disciplined history that
      touches no other bead. */
  lemma {:induction false} WorkOff(t: Tables, group: set<Id>, g: Graph, todo: set<Id>, last: Id, session: string)
    returns (events: seq<Event>)
    requires Runnable(t.beads, g, todo) && Acyclic(g)
    requires last !in todo && last in t.beads && t.beads[last].status == Open
    requires forall n :: n in t.beads[last].needs ==> n in todo || Met(t.beads, n)
    ensures DisciplinedHistory(t, group, events)
    ensures var after := Replay(t, events).beads;
            && last in after && after[last].status == InProgress
            && forall x :: x in t.beads && x !in todo && x != last ==> x in after && after[x] == t.beads[x]
    decreases |todo|
  {
    if todo == {} {
      events := [BeadClaimed(last, session)];
      assert events[1..] == [];
    } else {
      var b := SomeIsReady(t.beads, g, todo);
      var next := PassOne(t, group, b, session);
      RunnableWithout(t.beads, next.beads, g, todo, b);
      var rest := WorkOff(next, group, g, todo - {b}, last, session);
      PassFirst(t, group, b, session, next, rest);
      events := [BeadClaimed(b, session), BeadClosed(b, Pass, Plain(None))] + rest;
    }
  }

  /** What an anchor reaches, itself left out. */
  ghost function Behind(g: Graph, nodes: set<Id>, a: Id): set<Id> {
    set b | b in nodes && b != a && Reaches(g, a, b)
  }

  lemma BehindIsRunnable(beads: Beads, ctx: RunContext, a: Id)
    requires RunIntact(beads, ctx) && a in AnchorSet(ctx)
    requires forall b :: b in AnchorSet(ctx) ==> beads[b].status == Open
    ensures Runnable(beads, AnchorGraph(beads, ctx), Behind(AnchorGraph(beads, ctx), AnchorSet(ctx), a))
    ensures forall n :: n in beads[a].needs ==> n in Behind(AnchorGraph(beads, ctx), AnchorSet(ctx), a)
  {
    var g := AnchorGraph(beads, ctx);
    forall b, n | b in AnchorSet(ctx) && (b == a || Reaches(g, a, b)) && n in beads[b].needs
      ensures n in Behind(g, AnchorSet(ctx), a)
    {
      assert Edge(g, b, n);
      if n == a {
        ReturnIsCycle(g, a, b);
      }
      EdgeReaches(g, b, n);
      if b != a {
        ReachesTransitive(g, a, b, n);
      }
    }
  }

  lemma ReturnIsCycle(g: Graph, a: Id, b: Id)
    requires (b == a || Reaches(g, a, b)) && Edge(g, b, a)
    ensures !Acyclic(g)
  {
    var p := if b == a then [a] else var q :| IsPath(g, q) && q[0] == a && q[|q| - 1] == b; q;
    PathSnoc(g, p, a);
    assert IsCycle(g, p + [a]);
  }

  // ---- from beads back to steps ------------------------------------------

  lemma StepPathIsNeedsPath(out: seq<Formula.Step>, p: seq<string>)
    requires IsPath(Validate.NeedsOf(Validate.EdgesOf(Raw(out))), p)
    ensures IsPath(NeedsGraphOf(out), p)
  {
    forall i | 0 <= i < |p| - 1
      ensures Hop(NeedsGraphOf(out), p, i)
    {
      assert Hop(Validate.NeedsOf(Validate.EdgesOf(Raw(out))), p, i);
      Validate.EdgesAreSteps(Raw(out), p[i]);
      var k :| 0 <= k < |Raw(out)| && Raw(out)[k].id == Some(p[i]) && p[i + 1] in Raw(out)[k].needs;
      assert StepNeeds(out, k, p[i], p[i + 1]);
      NeedsGraphEdge(out, p[i], p[i + 1]);
    }
  }

  lemma PathIsAwaiting(out: seq<Formula.Step>, j: nat, p: seq<string>)
    requires Validate.WellFormed(Raw(out)) && j < |out|
    requires IsPath(NeedsGraphOf(out), p) && |p| >= 2 && out[j].id == Some(p[0])
    ensures Awaits(NeedsGraphOf(out), out[j], p[|p| - 1])
  {
    var g := NeedsGraphOf(out);
    assert Hop(g, p, 0);
    NeedsGraphEdge(out, p[0], p[1]);
    var k :| StepNeeds(out, k, p[0], p[1]);
    assert Raw(out)[k].id == Raw(out)[j].id;
    PathTail(g, p, 1);
    assert Reaches(g, p[1], p[|p| - 1]);
  }

  /** A bead behind that of step `j` is that of a step it waits for. */
  lemma BehindIsAwaited(out: seq<Formula.Step>, beads: Beads, ctx: RunContext, j: nat, s: string, n: string)
    requires Validate.WellFormed(Raw(out)) && Cook.CarriesNeeds(Raw(out), beads, ctx)
    requires j < |out| && out[j].id == Some(s) && s in ctx.steps && n in ctx.steps
    requires ctx.anchors[n] in Behind(AnchorGraph(beads, ctx), AnchorSet(ctx), ctx.anchors[s])
    ensures Awaits(NeedsGraphOf(out), out[j], n)
  {
    var g, a, b := AnchorGraph(beads, ctx), ctx.anchors[s], ctx.anchors[n];
    var p :| IsPath(g, p) && p[0] == a && p[|p| - 1] == b;
    var q := Cook.AnchorPathIsStepPath(Raw(out), beads, ctx, p);
    Cook.SameAnchorSameStep(Raw(out), beads, ctx, q[0], s);
    Cook.SameAnchorSameStep(Raw(out), beads, ctx, q[|q| - 1], n);
    StepPathIsNeedsPath(out, q);
    PathIsAwaiting(out, j, q);
  }

  /** A history that starts step `j` with no step passed that it does not wait for. */
  lemma EarlyStart(out: seq<Formula.Step>, before: Beads, cooked: Tables, ctx: RunContext, extra: seq<Id>,
                   j: nat, s: string, session: string) returns (events: seq<Event>)
    requires Validate.WellFormed(Raw(out)) && Cook.FreshRun(before, cooked.beads, Raw(out), ctx, extra)
    requires j < |out| && out[j].id == Some(s) && s in ctx.steps
    ensures DisciplinedHistory(cooked, AnchorSet(ctx), events) && Started(Replay(cooked, events).beads, ctx.anchors[s])
    ensures forall n :: n in ctx.steps && !Awaits(NeedsGraphOf(out), out[j], n) ==>
                !Met(Replay(cooked, events).beads, ctx.anchors[n])
  {
    var g, a := AnchorGraph(cooked.beads, ctx), ctx.anchors[s];
    AnchorsOpen(out, cooked.beads, ctx);
    BehindIsRunnable(cooked.beads, ctx, a);
    events := WorkOff(cooked, AnchorSet(ctx), g, Behind(g, AnchorSet(ctx), a), a, session);
    forall n | n in ctx.steps && !Awaits(NeedsGraphOf(out), out[j], n)
      ensures !Met(Replay(cooked, events).beads, ctx.anchors[n])
    {
      if ctx.anchors[n] in Behind(g, AnchorSet(ctx), a) {
        BehindIsAwaited(out, cooked.beads, ctx, j, s, n);
      }
      assert ctx.anchors[n] in AnchorSet(ctx);
    }
  }

  lemma NamedStep(out: seq<Formula.Step>, beads: Beads, ctx: RunContext, j: nat)
    requires Cook.CarriesNeeds(Raw(out), beads, ctx) && j < |out|
    ensures out[j].id.Some? && out[j].id.value in ctx.steps
  {
    assert Cook.CarriesStep(Raw(out), beads, ctx, j);
  }

  /** Exactly: a step of a validated formula never starts before another has passed, in any
      disciplined history of its run, if and only if it waits for it in the formula. */
  lemma WaitingIsExact(out: seq<Formula.Step>, before: Beads, cooked: Tables, ctx: RunContext, extra: seq<Id>, j: nat,
                       n: string)
    requires Validate.WellFormed(Raw(out)) && Cook.FreshRun(before, cooked.beads, Raw(out), ctx, extra) && j < |out|
    ensures out[j].id.Some? && out[j].id.value in ctx.steps
    ensures RunsAfter(cooked, ctx, out[j].id.value, n) <==> Awaits(NeedsGraphOf(out), out[j], n)
  {
    NamedStep(out, cooked.beads, ctx, j);
    var s := out[j].id.value;
    if Awaits(NeedsGraphOf(out), out[j], n) {
      AwaitedIsStep(out, cooked.beads, ctx, j, n);
      forall events: seq<Event> | DisciplinedHistory(cooked, AnchorSet(ctx), events)
        ensures Started(Replay(cooked, events).beads, ctx.anchors[s]) ==>
            Met(Replay(cooked, events).beads, ctx.anchors[n])
      {
        StartedStepHasPassedBehind(out, before, cooked, ctx, extra, events, out[j], n);
      }
    } else {
      var events := EarlyStart(out, before, cooked, ctx, extra, j, s, "");
    }
  }

  lemma AwaitedIsStep(out: seq<Formula.Step>, beads: Beads, ctx: RunContext, j: nat, n: string)
    requires Validate.WellFormed(Raw(out)) && Cook.CarriesNeeds(Raw(out), beads, ctx)
    requires j < |out| && Awaits(NeedsGraphOf(out), out[j], n)
    ensures n in ctx.steps
  {
    NeededIsNeeded(out, j, n);
    var s :| s in out && n in s.needs;
    var k :| 0 <= k < |out| && out[k] == s;
    Cook.NeedsAreSteps(Raw(out), beads, ctx, k, n);
  }

  // ---- what an expansion promises about runs -----------------------------

  /** A way inside a part of the formula, whose ids are not gone. */
  lemma PartAwaitsClear(out: seq<Formula.Step>, part: seq<Formula.Step>, s: Formula.Step, n: string, gone: set<string>)
    requires (forall t :: t in part ==> t in out) && Formula.IdsOf(part) !! gone && n !in gone
    requires Awaits(NeedsGraphOf(part), s, n)
    ensures AwaitsClear(out, s, n, gone)
  {
    var g := NeedsGraphOf(part);
    AwaitsIsPath(g, s, n);
    var p :| IsPath(g, p) && p[0] in s.needs && p[|p| - 1] == n;
    forall i | 0 <= i < |p| - 1
      ensures Hop(NeedsGraphOf(out), p, i) && p[i] !in gone
    {
      assert Hop(g, p, i);
      NeedsGraphEdge(part, p[i], p[i + 1]);
      var k :| StepNeeds(part, k, p[i], p[i + 1]);
      assert part[k] in part;
      var l :| 0 <= l < |out| && out[l] == part[k];
      assert StepNeeds(out, l, p[i], p[i + 1]);
      NeedsGraphEdge(out, p[i], p[i + 1]);
    }
    assert forall x :: x in p ==> exists i :: 0 <= i < |p| && p[i] == x;
    assert ClearWay(out, s, n, gone, p);
  }

  lemma BlockInside(env: Expand.Env, steps: seq<Formula.Step>, vars: Braces.Vars, k: nat)
    requires k < |steps| && steps[k].expand.Some? && Expand.ExpandAll(env, steps, vars, 1).result.Ok?
    ensures Expand.ExpandOne(env, steps[k], vars, 1).result.Ok?
    ensures forall s :: s in Expand.ExpandOne(env, steps[k], vars, 1).result.value ==>
        s in Expand.ExpandAll(env, steps, vars, 1).result.value
  {
    var lo := BlockAt(env, steps, vars, 1, k);
    var block, out := Expand.ExpandOne(env, steps[k], vars, 1).result.value,
                      Expand.ExpandAll(env, steps, vars, 1).result.value;
    forall s | s in block
      ensures s in out
    {
      InSlice(out, block, lo, s);
    }
  }

  /** When pruning drops nothing that stands in the target's place, nor what the target needs, all that
      stands in its place still waits for what it needed. */
  lemma BlockAwaitsClear(env: Expand.Env, steps: seq<Formula.Step>, vars: Braces.Vars, k: nat, s: Formula.Step,
                         n: string, gone: set<string>)
    requires k < |steps| && steps[k].expand.Some? && Faithful(env, steps[k], vars, 1) && n in steps[k].needs
    requires Expand.ExpandAll(env, steps, vars, 1).result.Ok?
    requires Expand.ExpandOne(env, steps[k], vars, 1).result.Ok? &&
        s in Expand.ExpandOne(env, steps[k], vars, 1).result.value
    requires LeftIds(env, steps[k], vars, 1) !! gone && n !in gone
    ensures s in Expand.ExpandAll(env, steps, vars, 1).result.value
    ensures AwaitsClear(Expand.ExpandAll(env, steps, vars, 1).result.value, s, n, gone)
  {
    var block, out := Expand.ExpandOne(env, steps[k], vars, 1).result.value,
                      Expand.ExpandAll(env, steps, vars, 1).result.value;
    BlockInside(env, steps, vars, k);
    GraphIncludes(block);
    TargetBlockAwaits(env, steps[k], vars, 1, NeedsGraphOf(block), s);
    LeftIdsAreResultIds(env, steps[k], vars, 1);
    PartAwaitsClear(out, block, s, n, gone);
  }

  /** An expansion never runs before its target's prerequisites: cook the validated result of a compile
      that prunes neither what the target needs nor anything in its place; then, in every
      disciplined history, a bead of a step that replaces the target is claimed or passed only if
      the bead of everything the target needed has passed. */
  lemma ExpansionRunsAfterTargetNeeds(env: Expand.Env, steps: seq<Formula.Step>, values: Condition.Values, k: nat,
                                      before: Beads, cooked: Tables, ctx: RunContext, extra: seq<Id>,
                                      events: seq<Event>, s: Formula.Step, n: string)
    requires var vars := Condition.Defined(values);
             && Expand.ExpandAll(env, steps, vars, 1).result.Ok?
             && k < |steps| && steps[k].expand.Some? && Faithful(env, steps[k], vars, 1) && n in steps[k].needs
             && Expand.ExpandOne(env, steps[k], vars, 1).result.Ok?
             && s in Expand.ExpandOne(env, steps[k], vars, 1).result.value && !Falls(s, values)
             && var gone := GoneIds(Expand.ExpandAll(env, steps, vars, 1).result.value, values);
                LeftIds(env, steps[k], vars, 1) !! gone && n !in gone
    requires var out := Compiled(env, steps, values).value;
             Validate.WellFormed(Raw(out)) && Cook.FreshRun(before, cooked.beads, Raw(out), ctx, extra)
    requires DisciplinedHistory(cooked, AnchorSet(ctx), events)
    ensures s.id.Some? && s.id.value in ctx.anchors && n in ctx.anchors
    ensures var beads := Replay(cooked, events).beads;
            Started(beads, ctx.anchors[s.id.value]) ==> Met(beads, ctx.anchors[n])
  {
    var out := Expand.ExpandAll(env, steps, Condition.Defined(values), 1).result.value;
    BlockAwaitsClear(env, steps, Condition.Defined(values), k, s, n, GoneIds(out, values));
    PruningAwaitsExactly(out, values, s, n);
    StartedStepHasPassedBehind(Pruned(out, values), before, cooked, ctx, extra, events, Freed(s, GoneIds(out, values)),
        n);
  }

  /** The same for a formula as it was before pruning: a step that stays never starts before `n` has
      passed if and only if a way of ids that are not gone leads it there. */
  lemma PrunedRunsExactly(out: seq<Formula.Step>, values: Condition.Values, before: Beads, cooked: Tables,
                          ctx: RunContext, extra: seq<Id>, s: Formula.Step, n: string)
    requires Validate.WellFormed(Raw(Pruned(out, values))) && s in out && !Falls(s, values)
    requires Cook.FreshRun(before, cooked.beads, Raw(Pruned(out, values)), ctx, extra)
    ensures s.id.Some? && s.id.value in ctx.steps
    ensures RunsAfter(cooked, ctx, s.id.value, n) <==> AwaitsClear(out, s, n, GoneIds(out, values))
  {
    var left, gone := Pruned(out, values), GoneIds(out, values);
    PruningAwaitsExactly(out, values, s, n);
    var j :| 0 <= j < |left| && left[j] == Freed(s, gone);
    WaitingIsExact(left, before, cooked, ctx, extra, j, n);
  }

  /** "Never before its target's prerequisites", exactly: when the compiled formula validates and is
      cooked, its step `j`, if pruning leaves it, runs after the step `n` that the expanded step `k`
      needs, in every disciplined history, if and only if it waits anyway or at a root. */
  lemma ExpansionRunsExactly(env: Expand.Env, steps: seq<Formula.Step>, values: Condition.Values, k: nat, j: nat,
                             n: string, before: Beads, cooked: Tables, ctx: RunContext, extra: seq<Id>)
    requires k < |steps| && n in steps[k].needs && Expand.ExpandAll(env, steps, Condition.Defined(values), 1).result.Ok?
    requires var out := Expand.ExpandAll(env, steps, Condition.Defined(values), 1).result.value;
             j < |out| && !Falls(out[j], values)
    requires var left := Compiled(env, steps, values).value;
             Validate.WellFormed(Raw(left)) && Cook.FreshRun(before, cooked.beads, Raw(left), ctx, extra)
    ensures var vars := Condition.Defined(values);
            var out := Expand.ExpandAll(env, steps, vars, 1).result.value;
            && out[j].id.Some? && out[j].id.value in ctx.steps
            && (RunsAfter(cooked, ctx, out[j].id.value, n) <==>
                ExpandExact.WaitsAnywayOrAtRoot(env, steps, vars, k, j, n, GoneIds(out, values)))
  {
    var vars := Condition.Defined(values);
    var out := Expand.ExpandAll(env, steps, vars, 1).result.value;
    PrunedRunsExactly(out, values, before, cooked, ctx, extra, out[j], n);
    ExpandExact.ExpansionAwaitsExactly(env, steps, vars, k, j, n, GoneIds(out, values));
  }
}
