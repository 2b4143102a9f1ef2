/** What expansion keeps: it replaces a step where it stands, every step that replaces a target
    waits, directly or not, for everything the target needed, and it ends on every library. */
module ExpandSafety {
  import opened Wrappers
  import opened NeedsGraph
  import opened Formula
  import opened Extends
  import opened Braces
  import opened Expand
  import opened ExpandNeeds

  // ---- every level -------------------------------------------------------

  ghost function InnerOf(env: Env, target: Step, callers: Vars): seq<Step>
    requires target.expand.Some? && Loaded(env, target).Ok?
  {
    TemplateFor(env, target, Loaded(env, target).value, callers)
  }

  ghost function InnerVars(env: Env, target: Step, callers: Vars): Vars
    requires target.expand.Some? && Loaded(env, target).Ok?
  {
    VarsFor(env, target, Loaded(env, target).value, callers)
  }

  /** What a target's expansion hands to the next level. */
  ghost function NextOf(env: Env, target: Step, callers: Vars): seq<Step>
    requires target.expand.Some? && Loaded(env, target).Ok?
  {
    Propagated(target, InnerOf(env, target, callers))
  }

  /** The needs of a step decide nothing about what it expands into. */
  lemma InnerIgnoresNeeds(env: Env, step: Step, needs: seq<string>, callers: Vars)
    requires step.expand.Some?
    ensures Loaded(env, step.(needs := needs)) == Loaded(env, step)
    ensures Loaded(env, step).Ok? ==>
              && InnerOf(env, step.(needs := needs), callers) == InnerOf(env, step, callers)
              && InnerVars(env, step.(needs := needs), callers) == InnerVars(env, step, callers)
  {
  }

  // ---- the ids an expansion leaves ---------------------------------------

  /** The ids that stand in place of a step, read off the templates alone. */
  ghost function LeftIds(env: Env, step: Step, vars: Vars, depth: nat): set<string>
    decreases Levels(depth), 1
  {
    if step.expand.None? then IdsOf(Flattened(step))
    else if depth > MAX_EXPANSION_DEPTH || Loaded(env, step).Err? then {}
    else LeftIdsAll(env, InnerOf(env, step, vars), InnerVars(env, step, vars), depth + 1)
  }

  ghost function LeftIdsAll(env: Env, steps: seq<Step>, vars: Vars, depth: nat): set<string>
    decreases Levels(depth), |steps| + 2
  {
    if steps == [] then {} else LeftIds(env, steps[0], vars, depth) + LeftIdsAll(env, steps[1..], vars, depth)
  }

  lemma LeftIdsIgnoreNeeds(env: Env, step: Step, needs: seq<string>, vars: Vars, depth: nat)
    ensures LeftIds(env, step.(needs := needs), vars, depth) == LeftIds(env, step, vars, depth)
  {
    if step.expand.Some? {
      InnerIgnoresNeeds(env, step, needs, vars);
    } else {
      var s, t := step.(children := []), step.(needs := needs).(children := []);
      assert Flattened(step) == [s] + FlattenedAll(step.children);
      assert Flattened(step.(needs := needs)) == [t] + FlattenedAll(step.children);
      FirstIds(s, FlattenedAll(step.children));
      FirstIds(t, FlattenedAll(step.children));
    }
  }

  lemma FirstIds(s: Step, rest: seq<Step>)
    ensures IdsOf([s] + rest) == (if s.id.Some? then {s.id.value} else {}) + IdsOf(rest)
  {
    assert s in [s] + rest;
    assert forall t :: t in [s] + rest <==> t == s || t in rest;
  }

  lemma {:induction false} LeftIdsAllIgnoreNeeds(env: Env, steps: seq<Step>, marks: seq<bool>, needs: seq<string>,
                                                 vars: Vars, depth: nat)
    requires |marks| == |steps|
    ensures LeftIdsAll(env, Seeded(steps, marks, needs), vars, depth) == LeftIdsAll(env, steps, vars, depth)
    decreases |steps|
  {
    if steps != [] {
      var after := Seeded(steps, marks, needs);
      assert after[1..] == Seeded(steps[1..], marks[1..], needs);
      LeftIdsAllIgnoreNeeds(env, steps[1..], marks[1..], needs, vars, depth);
      if marks[0] {
        LeftIdsIgnoreNeeds(env, steps[0], needs + steps[0].needs, vars, depth);
      }
    }
  }

  /** They are the ids of what the expansion yields. */
  lemma {:induction false} LeftIdsAreResultIds(env: Env, step: Step, vars: Vars, depth: nat)
    requires ExpandStep(env, step, vars, depth).result.Ok?
    ensures IdsOf(ExpandStep(env, step, vars, depth).result.value) == LeftIds(env, step, vars, depth)
    decreases Levels(depth), 1
  {
    if step.expand.Some? {
      var inner, vars' := InnerOf(env, step, vars), InnerVars(env, step, vars);
      LeftIdsAllAreResultIds(env, NextOf(env, step, vars), vars', depth + 1);
      PropagatedIsSeeded(step, inner);
      LeftIdsAllIgnoreNeeds(env, inner, RootsOf(inner), step.needs, vars', depth + 1);
    }
  }

  lemma {:induction false} LeftIdsAllAreResultIds(env: Env, steps: seq<Step>, vars: Vars, depth: nat)
    requires ExpandAll(env, steps, vars, depth).result.Ok?
    ensures IdsOf(ExpandAll(env, steps, vars, depth).result.value) == LeftIdsAll(env, steps, vars, depth)
    decreases Levels(depth), |steps| + 2
  {
    if steps == [] {
      assert IdsOf([]) == {};
    } else {
      LeftIdsAreResultIds(env, steps[0], vars, depth);
      LeftIdsAllAreResultIds(env, steps[1..], vars, depth);
      IdsOfConcat(ExpandStep(env, steps[0], vars, depth).result.value,
          ExpandAll(env, steps[1..], vars, depth).result.value);
    }
  }

  lemma IdsOfConcat(a: seq<Step>, b: seq<Step>)
    ensures IdsOf(a + b) == IdsOf(a) + IdsOf(b)
  {
  }

  // ---- templates that keep the promise -----------------------------------

  ghost predicate NeededIn(steps: seq<Step>, u: string) {
    exists s :: s in steps && u in s.needs
  }

  ghost predicate AllReachRoots(inner: seq<Step>) {
    forall k :: 0 <= k < |inner| ==> ReachesMark(inner, RootsOf(inner), k)
  }

  /** On the templates, level by level: the steps have no children, each is or leads to a root, and a
      template step that another needs leaves its id when it is itself expanded. */
  ghost predicate Faithful(env: Env, target: Step, callers: Vars, depth: nat)
    decreases Levels(depth)
  {
    target.expand.Some? && depth <= MAX_EXPANSION_DEPTH && Loaded(env, target).Ok? ==>
      var inner, vars := InnerOf(env, target, callers), InnerVars(env, target, callers);
      && AllReachRoots(inner)
      && forall s :: s in inner ==>
           && s.children == [] && Faithful(env, s, vars, depth + 1)
           && (s.id.Some? && NeededIn(inner, s.id.value) ==> s.id.value in LeftIds(env, s, vars, depth + 1))
  }

  lemma FaithfulIgnoresNeeds(env: Env, step: Step, needs: seq<string>, vars: Vars, depth: nat)
    ensures Faithful(env, step.(needs := needs), vars, depth) == Faithful(env, step, vars, depth)
  {
    if step.expand.Some? {
      InnerIgnoresNeeds(env, step, needs, vars);
    }
  }

  lemma SliceBehind(head: seq<Step>, rest: seq<Step>, at: nat, n: nat)
    requires at + n <= |rest|
    ensures (head + rest)[|head| + at..|head| + at + n] == rest[at..at + n]
  {
  }

  /** The expansions of the steps, one after the other, are the result. */
  lemma {:induction false} BlockAt(env: Env, steps: seq<Step>, vars: Vars, depth: nat, k: nat) returns (lo: nat)
    requires k < |steps| && ExpandAll(env, steps, vars, depth).result.Ok?
    ensures ExpandStep(env, steps[k], vars, depth).result.Ok?
    ensures var block, out :=
        ExpandStep(env, steps[k], vars, depth).result.value, ExpandAll(env, steps, vars, depth).result.value;
            lo + |block| <= |out| && out[lo..lo + |block|] == block
    ensures ExpandAll(env, steps[..k], vars, depth).result.Ok? &&
        |ExpandAll(env, steps[..k], vars, depth).result.value| == lo
    decreases |steps|
  {
    var head := ExpandStep(env, steps[0], vars, depth).result.value;
    if k == 0 {
      return 0;
    }
    var at := BlockAt(env, steps[1..], vars, depth, k - 1);
    assert steps[..k][1..] == steps[1..][..k - 1];
    var block, rest := ExpandStep(env, steps[k], vars, depth).result.value,
        ExpandAll(env, steps[1..], vars, depth).result.value;
    SliceBehind(head, rest, at, |block|);
    return |head| + at;
  }

  /** Every step of the result comes from one of the steps expanded. */
  lemma {:induction false} BlockBehind(env: Env, steps: seq<Step>, vars: Vars, depth: nat, s: Step) returns (k: nat)
    requires ExpandAll(env, steps, vars, depth).result.Ok? && s in ExpandAll(env, steps, vars, depth).result.value
    ensures k < |steps| && ExpandStep(env, steps[k], vars, depth).result.Ok?
    ensures s in ExpandStep(env, steps[k], vars, depth).result.value
    decreases |steps|
  {
    var head := ExpandStep(env, steps[0], vars, depth).result.value;
    if s in head {
      return 0;
    }
    k := BlockBehind(env, steps[1..], vars, depth, s);
    k := k + 1;
  }

  ghost predicate Includes(g: Graph, part: seq<Step>) {
    forall s, n :: s in part && s.id.Some? && n in s.needs ==> Edge(g, s.id.value, n)
  }

  lemma BlockIncluded(env: Env, steps: seq<Step>, vars: Vars, depth: nat, k: nat, g: Graph)
    requires k < |steps| && ExpandAll(env, steps, vars, depth).result.Ok?
    requires Includes(g, ExpandAll(env, steps, vars, depth).result.value)
    ensures ExpandStep(env, steps[k], vars, depth).result.Ok?
    ensures Includes(g, ExpandStep(env, steps[k], vars, depth).result.value)
  {
    var lo := BlockAt(env, steps, vars, depth, k);
    var block, out := ExpandStep(env, steps[k], vars, depth).result.value,
        ExpandAll(env, steps, vars, depth).result.value;
    forall s | s in block
      ensures s in out
    {
      InSlice(out, block, lo, s);
    }
  }

  lemma IncludedReaches(g: Graph, part: seq<Step>, s: Step, u: string, v: string)
    requires Includes(g, part) && s in part && s.id == Some(u) && Awaits(g, s, v)
    ensures Reaches(g, u, v)
  {
    if v in s.needs {
      EdgeReaches(g, u, v);
    } else {
      var m :| m in s.needs && Reaches(g, m, v);
      EdgeReaches(g, u, m);
      ReachesTransitive(g, u, m, v);
    }
  }

  /** Through every level, each step that ends up in place of `step` waits for all it needed. */
  lemma {:induction false} StepBlockAwaits(env: Env, step: Step, vars: Vars, depth: nat, g: Graph, s: Step)
    requires step.children == [] && Faithful(env, step, vars, depth)
    requires ExpandStep(env, step, vars, depth).result.Ok? && s in ExpandStep(env, step, vars, depth).result.value
    requires Includes(g, ExpandStep(env, step, vars, depth).result.value)
    ensures AwaitsAll(g, s, step.needs)
    decreases Levels(depth), 1, 0
  {
    if step.expand.None? {
      assert FlattenedAll([]) == [];
      assert s == step.(children := []);
    } else {
      TargetBlockAwaits(env, step, vars, depth, g, s);
    }
  }

  /** A template as its target's expansion finds it: each step faithful, and leaving its id if another
      needs it. */
  ghost predicate Template(env: Env, inner: seq<Step>, vars: Vars, depth: nat) {
    forall s :: s in inner ==>
      && s.children == [] && Faithful(env, s, vars, depth)
      && (s.id.Some? && NeededIn(inner, s.id.value) ==> s.id.value in LeftIds(env, s, vars, depth))
  }

  /** One level down: the template, with the target's needs on its roots, makes the target's result. */
  lemma TargetUnfolds(env: Env, target: Step, callers: Vars, depth: nat)
    requires target.expand.Some? && Faithful(env, target, callers, depth)
    requires ExpandOne(env, target, callers, depth).result.Ok?
    ensures depth <= MAX_EXPANSION_DEPTH && Loaded(env, target).Ok?
    ensures var inner, vars := InnerOf(env, target, callers), InnerVars(env, target, callers);
            && ExpandAll(env, Propagated(target, inner), vars, depth + 1).result ==
                ExpandOne(env, target, callers, depth).result
            && AllReachRoots(inner) && Template(env, inner, vars, depth + 1)
  {
  }

  lemma {:induction false} TargetBlockAwaits(env: Env, target: Step, callers: Vars, depth: nat, g: Graph, s: Step)
    requires target.expand.Some? && Faithful(env, target, callers, depth)
    requires ExpandOne(env, target, callers, depth).result.Ok? &&
        s in ExpandOne(env, target, callers, depth).result.value
    requires Includes(g, ExpandOne(env, target, callers, depth).result.value)
    ensures AwaitsAll(g, s, target.needs)
    decreases Levels(depth), 0, 0
  {
    TargetUnfolds(env, target, callers, depth);
    var inner, vars := InnerOf(env, target, callers), InnerVars(env, target, callers);
    var k := BlockBehind(env, Propagated(target, inner), vars, depth + 1, s);
    assert ReachesMark(inner, RootsOf(inner), k);
    TemplateBlockAwaits(env, target, inner, vars, depth + 1, g, k, s);
  }

  lemma {:induction false} TemplateBlockAwaits(env: Env, target: Step, inner: seq<Step>, vars: Vars, depth: nat,
                                               g: Graph, k: nat, s: Step)
    requires Template(env, inner, vars, depth) && ExpandAll(env, Propagated(target, inner), vars, depth).result.Ok?
    requires Includes(g, ExpandAll(env, Propagated(target, inner), vars, depth).result.value)
    requires k < |inner| && ReachesMark(inner, RootsOf(inner), k)
    requires ExpandStep(env, Propagated(target, inner)[k], vars, depth).result.Ok?
    requires s in ExpandStep(env, Propagated(target, inner)[k], vars, depth).result.value
    ensures AwaitsAll(g, s, target.needs)
    decreases Levels(depth), 6, 0
  {
    StepOfTemplateAwaits(env, target, inner, vars, depth, g, k, s);
    if !RootsOf(inner)[k] {
      var m :| m in inner[k].needs && LeadsToMark(inner, RootsOf(inner), m);
      var j, u :| MarkedAs(inner, RootsOf(inner), j, u) && Reaches(NeedsGraphOf(inner), m, u);
      var p :| IsPath(NeedsGraphOf(inner), p) && p[0] == m && p[|p| - 1] == u;
      assert inner[k] in inner;
      PathExpands(env, target, inner, vars, depth, g, p);
      forall n | n in target.needs
        ensures Awaits(g, s, n)
      {
        NeededStepAwaits(env, target, inner, vars, depth, g, j, u, n);
        AwaitsThrough(g, s, m, u);
        AwaitsThrough(g, s, u, n);
      }
    }
  }

  /** What replaces step `k` of the template waits for all that step `k` needs, and if it is a root
      for all that the target needs. */
  lemma {:induction false} StepOfTemplateAwaits(env: Env, target: Step, inner: seq<Step>, vars: Vars, depth: nat,
                                                g: Graph, k: nat, s: Step)
    requires Template(env, inner, vars, depth) && ExpandAll(env, Propagated(target, inner), vars, depth).result.Ok?
    requires Includes(g, ExpandAll(env, Propagated(target, inner), vars, depth).result.value)
    requires k < |inner| && ExpandStep(env, Propagated(target, inner)[k], vars, depth).result.Ok?
    requires s in ExpandStep(env, Propagated(target, inner)[k], vars, depth).result.value
    ensures AwaitsAll(g, s, inner[k].needs)
    ensures RootsOf(inner)[k] ==> AwaitsAll(g, s, target.needs)
    decreases Levels(depth), 2, 0
  {
    var next := Propagated(target, inner);
    assert inner[k] in inner;
    BlockIncluded(env, next, vars, depth, k, g);
    FaithfulIgnoresNeeds(env, inner[k], next[k].needs, vars, depth);
    StepBlockAwaits(env, next[k], vars, depth, g, s);
    assert forall n :: n in inner[k].needs ==> n in next[k].needs;
    assert RootsOf(inner)[k] ==> forall n :: n in target.needs ==> n in next[k].needs;
  }

  /** A template step that another needs leaves a step of its id, which waits for all it needed. */
  lemma {:induction false} NeededStepAwaits(env: Env, target: Step, inner: seq<Step>, vars: Vars, depth: nat, g: Graph,
                                            k: nat, u: string, n: string)
    requires Template(env, inner, vars, depth) && ExpandAll(env, Propagated(target, inner), vars, depth).result.Ok?
    requires Includes(g, ExpandAll(env, Propagated(target, inner), vars, depth).result.value)
    requires k < |inner| && inner[k].id == Some(u) && NeededIn(inner, u)
    requires n in inner[k].needs || (RootsOf(inner)[k] && n in target.needs)
    ensures Reaches(g, u, n)
    decreases Levels(depth), 3, 0
  {
    var next := Propagated(target, inner);
    assert inner[k] in inner;
    BlockIncluded(env, next, vars, depth, k, g);
    var block := ExpandStep(env, next[k], vars, depth).result.value;
    LeftIdsAreResultIds(env, next[k], vars, depth);
    LeftIdsIgnoreNeeds(env, inner[k], next[k].needs, vars, depth);
    assert next[k] == inner[k].(needs := next[k].needs);
    var s :| s in block && s.id == Some(u);
    StepOfTemplateAwaits(env, target, inner, vars, depth, g, k, s);
    IncludedReaches(g, block, s, u, n);
  }

  /** A path between template steps that starts at a needed one becomes a way between the steps that
      replace them, and ends at a needed one. */
  lemma {:induction false} PathExpands(env: Env, target: Step, inner: seq<Step>, vars: Vars, depth: nat, g: Graph,
                                       p: seq<Id>)
    requires Template(env, inner, vars, depth) && ExpandAll(env, Propagated(target, inner), vars, depth).result.Ok?
    requires Includes(g, ExpandAll(env, Propagated(target, inner), vars, depth).result.value)
    requires IsPath(NeedsGraphOf(inner), p) && NeededIn(inner, p[0])
    ensures Reaches(g, p[0], p[|p| - 1]) && NeededIn(inner, p[|p| - 1])
    decreases Levels(depth), 5, 0
  {
    var h, needed := NeedsGraphOf(inner), iset u | NeededIn(inner, u);
    forall u, n | Edge(h, u, n) && u in needed
      ensures Reaches(g, u, n) && n in needed
    {
      EdgeExpands(env, target, inner, vars, depth, g, u, n);
    }
    PathCarries(h, g, needed, p);
  }

  lemma {:induction false} EdgeExpands(env: Env, target: Step, inner: seq<Step>, vars: Vars, depth: nat, g: Graph,
                                       u: string, n: string)
    requires Template(env, inner, vars, depth) && ExpandAll(env, Propagated(target, inner), vars, depth).result.Ok?
    requires Includes(g, ExpandAll(env, Propagated(target, inner), vars, depth).result.value)
    requires Edge(NeedsGraphOf(inner), u, n) && NeededIn(inner, u)
    ensures Reaches(g, u, n) && NeededIn(inner, n)
    decreases Levels(depth), 4, 0
  {
    NeedsGraphEdge(inner, u, n);
    var k :| StepNeeds(inner, k, u, n);
    assert inner[k] in inner;
    NeededStepAwaits(env, target, inner, vars, depth, g, k, u, n);
  }

  lemma GraphIncludes(steps: seq<Step>)
    ensures Includes(NeedsGraphOf(steps), steps)
  {
    forall s, n | s in steps && s.id.Some? && n in s.needs
      ensures Edge(NeedsGraphOf(steps), s.id.value, n)
    {
      var k :| 0 <= k < |steps| && steps[k] == s;
      assert StepNeeds(steps, k, s.id.value, n);
      NeedsGraphEdge(steps, s.id.value, n);
    }
  }

  /** A target is replaced where it stands, and each step that replaces it waits, directly or not,
      for everything the target needed. */
  lemma ExpansionAwaitsTargetNeeds(env: Env, steps: seq<Step>, vars: Vars, k: nat) returns (lo: nat)
    requires k < |steps| && steps[k].expand.Some? && Faithful(env, steps[k], vars, 1)
    requires ExpandAll(env, steps, vars, 1).result.Ok?
    ensures ExpandOne(env, steps[k], vars, 1).result.Ok?
    ensures var block, out :=
        ExpandOne(env, steps[k], vars, 1).result.value, ExpandAll(env, steps, vars, 1).result.value;
            && lo + |block| <= |out| && out[lo..lo + |block|] == block
            && forall s :: s in block ==> AwaitsAll(NeedsGraphOf(out), s, steps[k].needs)
    ensures ExpandAll(env, steps[..k], vars, 1).result.Ok? && |ExpandAll(env, steps[..k], vars, 1).result.value| == lo
  {
    var out := ExpandAll(env, steps, vars, 1).result.value;
    lo := BlockAt(env, steps, vars, 1, k);
    GraphIncludes(out);
    BlockIncluded(env, steps, vars, 1, k, NeedsGraphOf(out));
    var block := ExpandOne(env, steps[k], vars, 1).result.value;
    forall s | s in block
      ensures AwaitsAll(NeedsGraphOf(out), s, steps[k].needs)
    {
      TargetBlockAwaits(env, steps[k], vars, 1, NeedsGraphOf(out), s);
    }
  }

  lemma InSlice(out: seq<Step>, block: seq<Step>, lo: nat, s: Step)
    requires lo + |block| <= |out| && out[lo..lo + |block|] == block && s in block
    ensures s in out
  {
    assert s in out[lo..lo + |block|];
  }

  /** The same, step by step and need by need. */
  lemma ExpandedStepAwaits(env: Env, steps: seq<Step>, vars: Vars, k: nat, s: Step, n: string)
    requires k < |steps| && steps[k].expand.Some? && Faithful(env, steps[k], vars, 1) && n in steps[k].needs
    requires ExpandAll(env, steps, vars, 1).result.Ok?
    requires ExpandOne(env, steps[k], vars, 1).result.Ok? && s in ExpandOne(env, steps[k], vars, 1).result.value
    ensures s in ExpandAll(env, steps, vars, 1).result.value
    ensures Awaits(NeedsGraphOf(ExpandAll(env, steps, vars, 1).result.value), s, n)
  {
    var lo := ExpansionAwaitsTargetNeeds(env, steps, vars, k);
    var block, out := ExpandOne(env, steps[k], vars, 1).result.value, ExpandAll(env, steps, vars, 1).result.value;
    OneOfAll(NeedsGraphOf(out), s, steps[k].needs, n);
    InSlice(out, block, lo, s);
  }

  lemma OneOfAll(g: Graph, s: Step, needs: seq<string>, n: string)
    requires AwaitsAll(g, s, needs) && n in needs
    ensures Awaits(g, s, n)
  {
  }

  // ---- endless libraries -------------------------------------------------

  /** Whatever it is expanded for, the formula's template has a step that expands into `names`. */
  ghost predicate ExpandsAgain(env: Env, name: string, names: set<string>) {
    forall target: Step, callers: Vars :: target.expand == Some(name) && Loaded(env, target).Ok? ==>
      exists k :: CallsInto(InnerOf(env, target, callers), k, names)
  }

  ghost predicate CallsInto(steps: seq<Step>, k: int, names: set<string>) {
    0 <= k < |steps| && steps[k].expand.Some? && steps[k].expand.value in names
  }

  /** Formulas that expand into one another without end are an error, at whatever depth one comes
      across them: never an endless compile, never a truncated one. */
  lemma {:induction false} EndlessExpansionFails(env: Env, names: set<string>, steps: seq<Step>, vars: Vars, depth: nat,
                                                 k: nat)
    requires forall n :: n in names ==> ExpandsAgain(env, n, names)
    requires CallsInto(steps, k, names)
    ensures ExpandAll(env, steps, vars, depth).result.Err?
    decreases Levels(depth)
  {
    if ExpandAll(env, steps, vars, depth).result.Ok? {
      var lo := BlockAt(env, steps, vars, depth, k);
      var target := steps[k];
      assert ExpandsAgain(env, target.expand.value, names);
      var inner := InnerOf(env, target, vars);
      var j :| CallsInto(inner, j, names);
      EndlessExpansionFails(env, names, Propagated(target, inner), InnerVars(env, target, vars), depth + 1, j);
    }
  }

  /** What comes out has no nesting left. */
  lemma {:induction false} ResultIsFlat(env: Env, steps: seq<Step>, vars: Vars, depth: nat, s: Step)
    requires ExpandAll(env, steps, vars, depth).result.Ok? && s in ExpandAll(env, steps, vars, depth).result.value
    ensures s.children == []
    decreases Levels(depth)
  {
    var k := BlockBehind(env, steps, vars, depth, s);
    if steps[k].expand.None? {
      FlatIsFlat(steps[k], s);
    } else {
      ResultIsFlat(env, NextOf(env, steps[k], vars), InnerVars(env, steps[k], vars), depth + 1, s);
    }
  }

  lemma {:induction false} FlatIsFlat(step: Step, s: Step)
    requires s in Flattened(step)
    ensures s.children == []
    decreases step, 0
  {
    if s != step.(children := []) {
      FlatAllIsFlat(step.children, s);
    }
  }

  lemma {:induction false} FlatAllIsFlat(steps: seq<Step>, s: Step)
    requires s in FlattenedAll(steps)
    ensures s.children == []
    decreases steps, 1
  {
    if s in Flattened(steps[0]) {
      FlatIsFlat(steps[0], s);
    } else {
      FlatAllIsFlat(steps[1..], s);
    }
  }
}
