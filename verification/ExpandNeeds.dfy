/** Waiting: who needs whom among the steps of an expansion, and exactly which steps come to wait for
    what the expanded step needed. */
module ExpandNeeds {
  import opened Wrappers
  import opened NeedsGraph
  import opened Formula
  import opened Expand

  // ---- waiting -----------------------------------------------------------

  ghost predicate StepNeeds(steps: seq<Step>, k: int, u: string, n: string) {
    0 <= k < |steps| && steps[k].id == Some(u) && n in steps[k].needs
  }

  ghost function NeedsOfId(steps: seq<Step>, u: string): set<string> {
    set k, n | 0 <= k < |steps| && steps[k].id == Some(u) && n in steps[k].needs :: n
  }

  /** Who needs whom, by id. */
  ghost function NeedsGraphOf(steps: seq<Step>): Graph {
    map u | u in IdsOf(steps) :: NeedsOfId(steps, u)
  }

  lemma NeedsGraphEdge(steps: seq<Step>, u: string, n: string)
    ensures Edge(NeedsGraphOf(steps), u, n) <==> exists k :: StepNeeds(steps, k, u, n)
  {
    if k :| StepNeeds(steps, k, u, n) {
      assert steps[k] in steps;
      assert n in NeedsOfId(steps, u);
    }
    if Edge(NeedsGraphOf(steps), u, n) {
      var k, m :| 0 <= k < |steps| && steps[k].id == Some(u) && m in steps[k].needs && m == n;
      assert StepNeeds(steps, k, u, n);
    }
  }

  /** `s` needs `n`, or needs something that does in the end. */
  ghost predicate Awaits(g: Graph, s: Step, n: string) {
    n in s.needs || exists m :: m in s.needs && Reaches(g, m, n)
  }

  ghost predicate AwaitsAll(g: Graph, s: Step, needs: seq<string>) {
    forall n :: n in needs ==> Awaits(g, s, n)
  }

  lemma AwaitsThrough(g: Graph, s: Step, m: string, n: string)
    requires Awaits(g, s, m) && Reaches(g, m, n)
    ensures Awaits(g, s, n)
  {
    if m !in s.needs {
      var l :| l in s.needs && Reaches(g, l, m);
      ReachesTransitive(g, l, m, n);
    }
  }

  lemma AwaitsPath(steps: seq<Step>, k: nat, u: string, n: string) returns (p: seq<string>)
    requires k < |steps| && steps[k].id == Some(u) && Awaits(NeedsGraphOf(steps), steps[k], n)
    ensures IsPath(NeedsGraphOf(steps), p) && |p| >= 2 && p[0] == u && p[|p| - 1] == n
  {
    var g := NeedsGraphOf(steps);
    var m := if n in steps[k].needs then n else var m :| m in steps[k].needs && Reaches(g, m, n); m;
    assert StepNeeds(steps, k, u, m);
    NeedsGraphEdge(steps, u, m);
    if m == n {
      p := [u, n];
      assert Hop(g, p, 0);
    } else {
      var q :| IsPath(g, q) && q[0] == m && q[|q| - 1] == n;
      PathJoin(g, [u], q);
      p := [u] + q;
    }
  }

  /** Edges between `good` nodes that become ways in another graph make paths ways there. */
  lemma {:induction false} PathCarries(h: Graph, g: Graph, good: iset<Id>, p: seq<Id>)
    requires forall u, n :: Edge(h, u, n) && u in good ==> Reaches(g, u, n) && n in good
    requires IsPath(h, p) && p[0] in good
    ensures Reaches(g, p[0], p[|p| - 1]) && p[|p| - 1] in good
    decreases |p|
  {
    if |p| == 1 {
      assert IsPath(g, p);
    } else {
      assert Hop(h, p, 0);
      PathTail(h, p, 1);
      PathCarries(h, g, good, p[1..]);
      ReachesTransitive(g, p[0], p[1], p[|p| - 1]);
    }
  }

  // ---- putting further needs on some of the steps ------------------------

  ghost function Seeded(steps: seq<Step>, marks: seq<bool>, needs: seq<string>): (r: seq<Step>)
    requires |marks| == |steps|
    ensures |r| == |steps|
  {
    seq(|steps|, i requires 0 <= i < |steps| =>
      if marks[i] then steps[i].(needs := needs + steps[i].needs) else steps[i])
  }

  ghost predicate MarkedAs(steps: seq<Step>, marks: seq<bool>, j: int, u: string)
    requires |marks| == |steps|
  {
    0 <= j < |steps| && marks[j] && steps[j].id == Some(u)
  }

  /** A marked step is reached from the id `m`. */
  ghost predicate LeadsToMark(steps: seq<Step>, marks: seq<bool>, m: string)
    requires |marks| == |steps|
  {
    exists j, u :: MarkedAs(steps, marks, j, u) && Reaches(NeedsGraphOf(steps), m, u)
  }

  /** Step `k` is marked, or needs, directly or not, a marked step. */
  ghost predicate ReachesMark(steps: seq<Step>, marks: seq<bool>, k: int)
    requires |marks| == |steps| && 0 <= k < |steps|
  {
    marks[k] || exists m :: m in steps[k].needs && LeadsToMark(steps, marks, m)
  }

  lemma SeedingKeepsPath(steps: seq<Step>, marks: seq<bool>, needs: seq<string>, p: seq<Id>)
    requires |marks| == |steps| && IsPath(NeedsGraphOf(steps), p)
    ensures IsPath(NeedsGraphOf(Seeded(steps, marks, needs)), p)
  {
    var after := Seeded(steps, marks, needs);
    forall i | 0 <= i < |p| - 1
      ensures Hop(NeedsGraphOf(after), p, i)
    {
      assert Hop(NeedsGraphOf(steps), p, i);
      NeedsGraphEdge(steps, p[i], p[i + 1]);
      var k :| StepNeeds(steps, k, p[i], p[i + 1]);
      assert StepNeeds(after, k, p[i], p[i + 1]);
      NeedsGraphEdge(after, p[i], p[i + 1]);
    }
  }

  lemma SeedingReaches(steps: seq<Step>, marks: seq<bool>, needs: seq<string>, m: string, n: string)
    requires |marks| == |steps| && Reaches(NeedsGraphOf(steps), m, n)
    ensures Reaches(NeedsGraphOf(Seeded(steps, marks, needs)), m, n)
  {
    var p :| IsPath(NeedsGraphOf(steps), p) && p[0] == m && p[|p| - 1] == n;
    SeedingKeepsPath(steps, marks, needs, p);
  }

  lemma MarkLeadsToItself(steps: seq<Step>, marks: seq<bool>, i: nat, u: string)
    requires |marks| == |steps| && MarkedAs(steps, marks, i, u)
    ensures LeadsToMark(steps, marks, u)
  {
    assert IsPath(NeedsGraphOf(steps), [u]);
    assert Reaches(NeedsGraphOf(steps), u, u);
  }

  lemma LeadsThrough(steps: seq<Step>, marks: seq<bool>, u: string, m: string)
    requires |marks| == |steps| && Edge(NeedsGraphOf(steps), u, m) && LeadsToMark(steps, marks, m)
    ensures LeadsToMark(steps, marks, u)
  {
    var j, v :| MarkedAs(steps, marks, j, v) && Reaches(NeedsGraphOf(steps), m, v);
    EdgeReaches(NeedsGraphOf(steps), u, m);
    ReachesTransitive(NeedsGraphOf(steps), u, m, v);
  }

  /** A way through the seeded steps is one through the steps as they were, or meets a marked one. */
  lemma {:induction false} SeededPath(steps: seq<Step>, marks: seq<bool>, needs: seq<string>, p: seq<Id>)
    requires |marks| == |steps| && IsPath(NeedsGraphOf(Seeded(steps, marks, needs)), p)
    ensures IsPath(NeedsGraphOf(steps), p) || LeadsToMark(steps, marks, p[0])
    decreases |p|
  {
    var g, after := NeedsGraphOf(steps), Seeded(steps, marks, needs);
    if |p| > 1 {
      assert Hop(NeedsGraphOf(after), p, 0);
      NeedsGraphEdge(after, p[0], p[1]);
      var i :| StepNeeds(after, i, p[0], p[1]);
      if p[1] in steps[i].needs {
        assert StepNeeds(steps, i, p[0], p[1]);
        NeedsGraphEdge(steps, p[0], p[1]);
        PathTail(NeedsGraphOf(after), p, 1);
        SeededPath(steps, marks, needs, p[1..]);
        if IsPath(g, p[1..]) {
          PathJoin(g, [p[0]], p[1..]);
          assert p == [p[0]] + p[1..];
        } else {
          LeadsThrough(steps, marks, p[0], p[1]);
        }
      } else {
        MarkLeadsToItself(steps, marks, i, p[0]);
      }
    }
  }

  lemma SeededOnlyThroughMarks(steps: seq<Step>, marks: seq<bool>, needs: seq<string>, k: nat, n: string)
    requires |marks| == |steps| && k < |steps|
    requires Awaits(NeedsGraphOf(Seeded(steps, marks, needs)), Seeded(steps, marks, needs)[k], n)
    ensures Awaits(NeedsGraphOf(steps), steps[k], n) || ReachesMark(steps, marks, k)
  {
    var after := Seeded(steps, marks, needs);
    if !marks[k] && n !in steps[k].needs {
      var m :| m in steps[k].needs && Reaches(NeedsGraphOf(after), m, n);
      var p :| IsPath(NeedsGraphOf(after), p) && p[0] == m && p[|p| - 1] == n;
      SeededPath(steps, marks, needs, p);
      assert IsPath(NeedsGraphOf(steps), p) ==> Reaches(NeedsGraphOf(steps), m, n);
    }
  }

  /** Exactly: a step waits for a seeded need if and only if it did so before, or it is or needs,
      directly or not, a marked step. */
  lemma SeedingIsExact(steps: seq<Step>, marks: seq<bool>, needs: seq<string>, k: nat, n: string)
    requires |marks| == |steps| && k < |steps| && n in needs
    ensures var after := Seeded(steps, marks, needs);
            Awaits(NeedsGraphOf(after), after[k], n) <==>
            Awaits(NeedsGraphOf(steps), steps[k], n) || ReachesMark(steps, marks, k)
  {
    var after := Seeded(steps, marks, needs);
    if Awaits(NeedsGraphOf(after), after[k], n) {
      SeededOnlyThroughMarks(steps, marks, needs, k, n);
    }
    if Awaits(NeedsGraphOf(steps), steps[k], n) && n !in steps[k].needs {
      var m :| m in steps[k].needs && Reaches(NeedsGraphOf(steps), m, n);
      SeedingReaches(steps, marks, needs, m, n);
    }
    if ReachesMark(steps, marks, k) && !marks[k] {
      var m :| m in steps[k].needs && LeadsToMark(steps, marks, m);
      var j, u :| MarkedAs(steps, marks, j, u) && Reaches(NeedsGraphOf(steps), m, u);
      SeedingReaches(steps, marks, needs, m, u);
      assert StepNeeds(after, j, u, n);
      NeedsGraphEdge(after, u, n);
      EdgeReaches(NeedsGraphOf(after), u, n);
      ReachesTransitive(NeedsGraphOf(after), m, u, n);
    }
  }

  // ---- one level of expansion --------------------------------------------

  ghost function RootsOf(inner: seq<Step>): (r: seq<bool>)
    ensures |r| == |inner|
  {
    seq(|inner|, i requires 0 <= i < |inner| => IsRoot(inner[i], IdsOf(inner)))
  }

  lemma PropagatedIsSeeded(target: Step, inner: seq<Step>)
    ensures Propagated(target, inner) == Seeded(inner, RootsOf(inner), target.needs)
  {
  }

  /** Needs of the template without a cycle lead every template step to a root. */
  lemma AcyclicReachesRoot(inner: seq<Step>, k: nat)
    requires Acyclic(NeedsGraphOf(inner)) && k < |inner|
    ensures ReachesMark(inner, RootsOf(inner), k)
  {
    var g, roots := NeedsGraphOf(inner), RootsOf(inner);
    if !ReachesMark(inner, roots, k) {
      var m := RootlessNeed(inner, k);
      var stuck := set u | u in IdsOf(inner) && !LeadsToMark(inner, roots, u);
      forall u | u in stuck
        ensures HasEdgeInto(g, u, stuck)
      {
        var s :| s in inner && s.id == Some(u);
        var i :| 0 <= i < |inner| && inner[i] == s;
        RootlessStep(inner, i, u);
        var v := RootlessNeed(inner, i);
        assert StepNeeds(inner, i, u, v);
        NeedsGraphEdge(inner, u, v);
        assert v in stuck && Edge(g, u, v);
      }
      TrapHoldsCycle(g, stuck, m);
    }
  }

  lemma RootlessStep(inner: seq<Step>, i: nat, u: string)
    requires i < |inner| && inner[i].id == Some(u) && !LeadsToMark(inner, RootsOf(inner), u)
    ensures !ReachesMark(inner, RootsOf(inner), i)
  {
    var roots := RootsOf(inner);
    if roots[i] {
      MarkLeadsToItself(inner, roots, i, u);
    } else if ReachesMark(inner, roots, i) {
      var m :| m in inner[i].needs && LeadsToMark(inner, roots, m);
      assert StepNeeds(inner, i, u, m);
      NeedsGraphEdge(inner, u, m);
      LeadsThrough(inner, roots, u, m);
    }
  }

  lemma RootlessNeed(inner: seq<Step>, k: nat) returns (m: string)
    requires k < |inner| && !ReachesMark(inner, RootsOf(inner), k)
    ensures m in inner[k].needs && m in IdsOf(inner) && !LeadsToMark(inner, RootsOf(inner), m)
  {
    assert !IsRoot(inner[k], IdsOf(inner));
    m :| m in inner[k].needs && m in IdsOf(inner);
  }

  /** With the target's needs on the roots, every step of an acyclic expansion waits for all of
      them. */
  lemma PropagationReachesAll(target: Step, inner: seq<Step>, k: nat)
    requires Acyclic(NeedsGraphOf(inner)) && k < |inner|
    ensures AwaitsAll(NeedsGraphOf(Propagated(target, inner)), Propagated(target, inner)[k], target.needs)
  {
    PropagatedIsSeeded(target, inner);
    AcyclicReachesRoot(inner, k);
    forall n | n in target.needs
      ensures Awaits(NeedsGraphOf(Propagated(target, inner)), Propagated(target, inner)[k], n)
    {
      SeedingIsExact(inner, RootsOf(inner), target.needs, k, n);
    }
  }

  // ---- templates whose steps have children -------------------------------

  ghost function Unmarked(n: nat): (r: seq<bool>)
    ensures |r| == n
  {
    seq(n, i requires 0 <= i < n => false)
  }

  /** Of the flattened steps, those that stood at the top and are marked there. */
  ghost function FlatMarks(steps: seq<Step>, marks: seq<bool>): (r: seq<bool>)
    requires |marks| == |steps|
    ensures |r| == |FlattenedAll(steps)|
  {
    if steps == [] then []
    else [marks[0]] + Unmarked(|FlattenedAll(steps[0].children)|) + FlatMarks(steps[1..], marks[1..])
  }

  lemma SeededConcat(a: seq<Step>, b: seq<Step>, x: seq<bool>, y: seq<bool>, needs: seq<string>)
    requires |x| == |a| && |y| == |b|
    ensures Seeded(a + b, x + y, needs) == Seeded(a, x, needs) + Seeded(b, y, needs)
  {
  }

  lemma SeededUnmarked(a: seq<Step>, needs: seq<string>)
    ensures Seeded(a, Unmarked(|a|), needs) == a
  {
  }

  /** A step with more needs flattens into the same steps, the first of them with more needs. */
  lemma SeededFlattens(step: Step, marked: bool, needs: seq<string>)
    ensures var seeded := if marked then step.(needs := needs + step.needs) else step;
            Flattened(seeded) == Seeded(Flattened(step), [marked] + Unmarked(|FlattenedAll(step.children)|), needs)
  {
    var top, rest := [step.(children := [])], FlattenedAll(step.children);
    SeededConcat(top, rest, [marked], Unmarked(|rest|), needs);
    SeededUnmarked(rest, needs);
  }

  lemma {:induction false} FlatIsSeeded(steps: seq<Step>, marks: seq<bool>, needs: seq<string>)
    requires |marks| == |steps|
    ensures FlattenedAll(Seeded(steps, marks, needs)) == Seeded(FlattenedAll(steps), FlatMarks(steps, marks), needs)
    decreases |steps|
  {
    if steps != [] {
      var after := Seeded(steps, marks, needs);
      assert after[1..] == Seeded(steps[1..], marks[1..], needs);
      FlatIsSeeded(steps[1..], marks[1..], needs);
      SeededFlattens(steps[0], marks[0], needs);
      SeededConcat(Flattened(steps[0]), FlattenedAll(steps[1..]),
                   [marks[0]] + Unmarked(|FlattenedAll(steps[0].children)|), FlatMarks(steps[1..], marks[1..]), needs);
    }
  }

  /** A template as it comes out, flattened, of one level of expansion. */
  ghost function FlatTemplate(target: Step, inner: seq<Step>): seq<Step> {
    FlattenedAll(Propagated(target, inner))
  }

  lemma FlatTemplateIsSeeded(target: Step, inner: seq<Step>)
    ensures FlatTemplate(target, inner) == Seeded(FlattenedAll(inner), FlatMarks(inner, RootsOf(inner)), target.needs)
  {
    PropagatedIsSeeded(target, inner);
    FlatIsSeeded(inner, RootsOf(inner), target.needs);
  }

  /** Exactly, on the template: when none of its steps, children included, needs `n` itself, all of
      them come to wait for the target's need `n` if and only if each is, or needs, directly or not,
      a step at the top of the template that needs nothing at the top. */
  lemma TemplateAwaitsExactly(target: Step, inner: seq<Step>, n: string)
    requires n in target.needs && forall s :: s in FlattenedAll(inner) ==> n !in s.needs
    ensures var flat, after := FlattenedAll(inner), FlatTemplate(target, inner);
            (forall s :: s in after ==> Awaits(NeedsGraphOf(after), s, n)) <==>
            (forall k :: 0 <= k < |flat| ==> ReachesMark(flat, FlatMarks(inner, RootsOf(inner)), k))
  {
    var flat, marks, after := FlattenedAll(inner), FlatMarks(inner, RootsOf(inner)), FlatTemplate(target, inner);
    FlatTemplateIsSeeded(target, inner);
    forall k | 0 <= k < |flat|
      ensures Awaits(NeedsGraphOf(after), after[k], n) <==> ReachesMark(flat, marks, k)
    {
      SeedingIsExact(flat, marks, target.needs, k, n);
      if Awaits(NeedsGraphOf(flat), flat[k], n) {
        NeededIsNeeded(flat, k, n);
      }
    }
    if forall s :: s in after ==> Awaits(NeedsGraphOf(after), s, n) {
      forall k | 0 <= k < |flat|
        ensures ReachesMark(flat, marks, k)
      {
        assert after[k] in after;
      }
    }
  }

  /** What is waited for is needed by somebody. */
  lemma NeededIsNeeded(steps: seq<Step>, k: nat, n: string)
    requires k < |steps| && Awaits(NeedsGraphOf(steps), steps[k], n)
    ensures exists s :: s in steps && n in s.needs
  {
    if n in steps[k].needs {
      assert steps[k] in steps;
    } else {
      var m :| m in steps[k].needs && Reaches(NeedsGraphOf(steps), m, n);
      var p :| IsPath(NeedsGraphOf(steps), p) && p[0] == m && p[|p| - 1] == n;
      assert Hop(NeedsGraphOf(steps), p, |p| - 2);
      NeedsGraphEdge(steps, p[|p| - 2], n);
      var i :| StepNeeds(steps, i, p[|p| - 2], n);
      assert steps[i] in steps;
    }
  }

  /** A step whose needs all lie outside the list waits for nothing but them. */
  lemma OutsideNeedsEnd(steps: seq<Step>, k: nat, n: string)
    requires k < |steps| && forall m :: m in steps[k].needs ==> m !in IdsOf(steps) && m != n
    ensures !Awaits(NeedsGraphOf(steps), steps[k], n)
  {
    if m :| m in steps[k].needs && Reaches(NeedsGraphOf(steps), m, n) {
      var p :| IsPath(NeedsGraphOf(steps), p) && p[0] == m && p[|p| - 1] == n;
      assert Hop(NeedsGraphOf(steps), p, 0);
    }
  }

  /** So a step below the top of the template whose needs all lie outside the template comes out of
      the expansion waiting for none of the target's needs that it does not state itself. */
  lemma ChildEscapesTarget(target: Step, inner: seq<Step>, k: nat, n: string)
    requires k < |FlattenedAll(inner)| && !FlatMarks(inner, RootsOf(inner))[k]
    requires forall m :: m in FlattenedAll(inner)[k].needs ==> m !in IdsOf(FlattenedAll(inner)) && m != n
    ensures |FlatTemplate(target, inner)| == |FlattenedAll(inner)|
    ensures !Awaits(NeedsGraphOf(FlatTemplate(target, inner)), FlatTemplate(target, inner)[k], n)
  {
    var flat, after := FlattenedAll(inner), FlatTemplate(target, inner);
    FlatTemplateIsSeeded(target, inner);
    SeededIds(flat, FlatMarks(inner, RootsOf(inner)), target.needs);
    OutsideNeedsEnd(after, k, n);
  }

  lemma SeededIds(steps: seq<Step>, marks: seq<bool>, needs: seq<string>)
    requires |marks| == |steps|
    ensures IdsOf(Seeded(steps, marks, needs)) == IdsOf(steps)
  {
    var after := Seeded(steps, marks, needs);
    forall s | s in steps && s.id.Some?
      ensures s.id.value in IdsOf(after)
    {
      var i :| 0 <= i < |steps| && steps[i] == s;
      assert after[i] in after;
    }
    forall s | s in after && s.id.Some?
      ensures s.id.value in IdsOf(steps)
    {
      var i :| 0 <= i < |after| && after[i] == s;
      assert steps[i] in steps;
    }
  }
}
