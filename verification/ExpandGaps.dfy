/** Where "never before its target's prerequisites" fails on a formula that validates: a template step
    is itself expanded away, or pruned, while another template step needs its id; or a template step
    is nested in another. */
module ExpandGaps {
  import opened Wrappers
  import opened NeedsGraph
  import opened Ledger
  import opened Runtime
  import opened Formula
  import opened Braces
  import opened Expand
  import opened ExpandNeeds
  import opened ExpandText
  import opened ExpandRuns
  import opened Prune
  import opened ExpandExact
  import opened ExpandSafety
  import Condition
  import Cook
  import Validate

  function Named(id: string, needs: seq<string>, expand: Option<string>): Step {
    Step(Some(id), None, None, None, needs, map[], None, None, expand, map[], [], "")
  }

  function Holding(template: seq<Step>): Walked {
    Walked(RawFormula(None, None, None, None, None, map[], [], template, []), [], [], [])
  }

  ghost predicate PlainName(s: string) {
    s != "" && '{' !in s
  }

  lemma LeafExpands(env: Env, step: Step, vars: Vars, depth: nat)
    requires step.expand.None? && step.children == []
    ensures ExpandStep(env, step, vars, depth).result == Ok([step])
  {
    assert FlattenedAll([]) == [];
    assert Flattened(step) == [step] + [] && [step] + [] == [step];
  }

  lemma RootGetsNeeds(target: Step, template: seq<Step>, i: nat)
    requires i < |template| && template[i].needs == []
    ensures Propagated(target, template)[i] == template[i].(needs := target.needs)
  {
    assert target.needs + [] == target.needs;
  }

  lemma NeedyKeepsNeeds(target: Step, template: seq<Step>, i: nat, j: nat)
    requires i < |template| && j < |template| && template[j].id.Some? && template[j].id.value in template[i].needs
    ensures Propagated(target, template)[i] == template[i]
  {
    assert template[j] in template;
  }

  /** Expansion into a formula of a brace-free template: the template, the target's needs on its
      roots, expanded one level down. */
  lemma PlainExpands(env: Env, target: Step, template: seq<Step>, vars: Vars, depth: nat) returns (inside: Vars)
    requires target.expand.Some? && target.expand.value in env.lib && depth <= MAX_EXPANSION_DEPTH
    requires env.lib[target.expand.value] == Holding(template) && template != []
    requires forall s :: s in template ==> PlainStep(s)
    ensures ExpandStep(env, target, vars, depth).result ==
            ExpandAll(env, Propagated(target, template), inside, depth + 1).result
  {
    var w := Holding(template);
    assert Loaded(env, target) == Ok(w);
    inside := VarsFor(env, target, w, vars);
    PlainTemplatesStay(BindingOf(env.alnum, target, inside), template);
  }

  lemma PairExpands(env: Env, first: Step, second: Step, vars: Vars, depth: nat, block: seq<Step>)
    requires ExpandStep(env, first, vars, depth).result == Ok(block)
    requires second.expand.None? && second.children == []
    ensures ExpandAll(env, [first, second], vars, depth).result == Ok(block + [second])
  {
    LeafExpands(env, second, vars, depth);
    var both, rest := [first, second], [second];
    assert both[1..] == rest && rest[1..] == [];
    assert ExpandAll(env, rest, vars, depth).result == Ok([second] + []);
    assert [second] + [] == [second];
  }

  lemma OneExpands(env: Env, step: Step, vars: Vars, depth: nat, block: seq<Step>)
    requires ExpandStep(env, step, vars, depth).result == Ok(block)
    ensures ExpandAll(env, [step], vars, depth).result == Ok(block)
  {
    var one := [step];
    assert one[1..] == [];
    assert ExpandAll(env, one, vars, depth).result == Ok(block + []);
    assert block + [] == block;
  }

  /** The formula: `a` and `p` on their own, then a step that needs `p` and expands into `outer`. */
  function Calling(a: string, p: string, t: string, outer: string): seq<Step> {
    [Named(a, [], None), Named(p, [], None), Named(t, [p], Some(outer))]
  }

  function OuterTemplate(a: string, b: string, inner: string): seq<Step> {
    [Named(a, [], Some(inner)), Named(b, [a], None)]
  }

  /** `outer` holds a step `a`, which expands into `inner`, and a step `b` that needs `a`; `inner`
      holds the one step `x`. */
  function Nesting(a: string, b: string, x: string, outer: string, inner: string): map<string, Walked> {
    map[outer := Holding(OuterTemplate(a, b, inner)), inner := Holding([Named(x, [], None)])]
  }

  function Escaped(a: string, b: string, p: string, x: string): seq<Step> {
    [Named(a, [], None), Named(p, [], None), Named(x, [p], None), Named(b, [a], None)]
  }

  lemma InnerBlock(env: Env, vars: Vars, depth: nat, a: string, p: string, x: string, inner: string)
    requires inner in env.lib && env.lib[inner] == Holding([Named(x, [], None)])
    requires PlainName(x) && depth <= MAX_EXPANSION_DEPTH
    ensures ExpandStep(env, Named(a, [p], Some(inner)), vars, depth).result == Ok([Named(x, [p], None)])
  {
    var target, template := Named(a, [p], Some(inner)), [Named(x, [], None)];
    var inside := PlainExpands(env, target, template, vars, depth);
    RootGetsNeeds(target, template, 0);
    assert Propagated(target, template) == [Named(x, [p], None)];
    LeafExpands(env, Named(x, [p], None), inside, depth + 1);
    OneExpands(env, Named(x, [p], None), inside, depth + 1, [Named(x, [p], None)]);
  }

  lemma OuterIsPlain(a: string, b: string, inner: string)
    requires PlainName(a) && PlainName(b) && PlainName(inner)
    ensures forall s :: s in OuterTemplate(a, b, inner) ==> PlainStep(s)
  {
  }

  lemma OuterPropagates(target: Step, a: string, b: string, inner: string)
    ensures Propagated(target, OuterTemplate(a, b, inner)) == [Named(a, target.needs, Some(inner)), Named(b, [a], None)]
  {
    RootGetsNeeds(target, OuterTemplate(a, b, inner), 0);
    NeedyKeepsNeeds(target, OuterTemplate(a, b, inner), 1, 0);
  }

  lemma OuterBlock(env: Env, vars: Vars, depth: nat, a: string, b: string, p: string, t: string, x: string,
                   outer: string, inner: string)
    requires outer in env.lib && env.lib[outer] == Holding(OuterTemplate(a, b, inner))
    requires inner in env.lib && env.lib[inner] == Holding([Named(x, [], None)])
    requires PlainName(a) && PlainName(b) && PlainName(x) && PlainName(inner) && depth < MAX_EXPANSION_DEPTH
    ensures ExpandStep(env, Named(t, [p], Some(outer)), vars, depth).result ==
        Ok([Named(x, [p], None), Named(b, [a], None)])
  {
    var target := Named(t, [p], Some(outer));
    OuterIsPlain(a, b, inner);
    var inside := PlainExpands(env, target, OuterTemplate(a, b, inner), vars, depth);
    OuterPropagates(target, a, b, inner);
    InnerBlock(env, inside, depth + 1, a, p, x, inner);
    var block, last := [Named(x, [p], None)], Named(b, [a], None);
    PairExpands(env, Named(a, [p], Some(inner)), last, inside, depth + 1, block);
    assert block + [last] == [Named(x, [p], None), last];
  }

  lemma EscapedIsClosed(a: string, b: string, p: string, x: string)
    requires a != b && a != p && a != x && b != p && b != x && p != x
    requires a != "" && b != "" && p != "" && x != ""
    ensures Validate.ClosedUnderNeeds(Raw(Escaped(a, b, p, x)))
  {
    var raw := Raw(Escaped(a, b, p, x));
    assert raw == [Validate.RawStep(Some(a), []), Validate.RawStep(Some(p), []), Validate.RawStep(Some(x), [p]),
                   Validate.RawStep(Some(b), [a])];
    assert raw[0].id == Some(a) && raw[1].id == Some(p);
    assert a in Validate.Known(raw) && p in Validate.Known(raw);
  }

  /** Who needs whom in the result: `x` needs `p`, `b` needs `a`, and nobody else anybody. */
  lemma EscapedNeeds(a: string, b: string, p: string, x: string, i: nat)
    requires i < 4
    ensures Escaped(a, b, p, x)[i].id == Some([a, p, x, b][i])
    ensures Escaped(a, b, p, x)[i].needs == [[], [], [p], [a]][i]
  {
  }

  lemma EscapedIsWellFormed(a: string, b: string, p: string, x: string)
    requires a != b && a != p && a != x && b != p && b != x && p != x
    requires a != "" && b != "" && p != "" && x != ""
    ensures Validate.WellFormed(Raw(Escaped(a, b, p, x)))
  {
    EscapedIsClosed(a, b, p, x);
    var raw := Raw(Escaped(a, b, p, x));
    var g, rank := Validate.NeedsOf(Validate.EdgesOf(raw)), map[a := 0, p := 0, x := 1, b := 1];
    forall u, v | Edge(g, u, v)
      ensures u in rank && v in rank && rank[v] < rank[u]
    {
      Validate.EdgesAreSteps(raw, u);
      var i :| 0 <= i < |raw| && raw[i].id == Some(u) && raw[i].needs == Validate.EdgesOf(raw)[u];
      EscapedNeeds(a, b, p, x, i);
    }
    RankedIsAcyclic(g, rank);
  }

  lemma EscapedWaitsForNothing(a: string, b: string, p: string, x: string)
    requires a != b && a != p && a != x
    ensures !Awaits(NeedsGraphOf(Escaped(a, b, p, x)), Escaped(a, b, p, x)[3], p)
  {
    var out := Escaped(a, b, p, x);
    var g := NeedsGraphOf(out);
    if Reaches(g, a, p) {
      var q :| IsPath(g, q) && q[0] == a && q[|q| - 1] == p;
      assert Hop(g, q, 0);
      forall k: int
        ensures !StepNeeds(out, k, a, q[1])
      {
      }
      NeedsGraphEdge(out, a, q[1]);
    }
  }

  lemma FrontExpands(env: Env, first: Step, rest: seq<Step>, vars: Vars, depth: nat, block: seq<Step>)
    requires first.expand.None? && first.children == []
    requires ExpandAll(env, rest, vars, depth).result == Ok(block)
    ensures ExpandAll(env, [first] + rest, vars, depth).result == Ok([first] + block)
  {
    LeafExpands(env, first, vars, depth);
    assert ([first] + rest)[1..] == rest;
  }

  lemma CallingExpands(env: Env, vars: Vars, depth: nat, a: string, b: string, p: string, t: string, x: string,
                       outer: string)
    requires ExpandStep(env, Named(t, [p], Some(outer)), vars, depth).result ==
             Ok([Named(x, [p], None), Named(b, [a], None)])
    ensures ExpandAll(env, Calling(a, p, t, outer), vars, depth).result == Ok(Escaped(a, b, p, x))
  {
    var first, second, target := Named(a, [], None), Named(p, [], None), Named(t, [p], Some(outer));
    var block := [Named(x, [p], None), Named(b, [a], None)];
    OneExpands(env, target, vars, depth, block);
    FrontExpands(env, second, [target], vars, depth, block);
    FrontExpands(env, first, [second] + [target], vars, depth, [second] + block);
    assert Calling(a, p, t, outer) == [first] + ([second] + [target]);
    assert Escaped(a, b, p, x) == [first] + ([second] + block);
  }

  /** The vanished id: the expansion succeeds and its result validates, with `b`, which stands in the
      place of a step that needs `p`, waiting for the formula's own `a` and not for `p`. */
  lemma VanishedIdEscapes(alnum: char -> bool, vars: Vars, a: string, b: string, p: string, t: string, x: string,
                          outer: string, inner: string)
    requires a != b && a != p && a != x && b != p && b != x && p != x && outer != inner
    requires PlainName(a) && PlainName(b) && PlainName(p) && PlainName(x) && PlainName(inner)
    ensures var env, out := Env(Nesting(a, b, x, outer, inner), alnum), Escaped(a, b, p, x);
            && ExpandAll(env, Calling(a, p, t, outer), vars, 1).result == Ok(out)
            && Validate.WellFormed(Raw(out))
            && p in Calling(a, p, t, outer)[2].needs && !Awaits(NeedsGraphOf(out), out[3], p)
  {
    var env := Env(Nesting(a, b, x, outer, inner), alnum);
    OuterBlock(env, vars, 1, a, b, p, t, x, outer, inner);
    CallingExpands(env, vars, 1, a, b, p, t, x, outer);
    EscapedIsWellFormed(a, b, p, x);
    EscapedWaitsForNothing(a, b, p, x);
  }

  /** And in a run cooked from it there is a disciplined history that starts `b` before `p` passed. */
  lemma VanishedIdRunsEarly(a: string, b: string, p: string, x: string, before: Beads, cooked: Tables, ctx: RunContext,
                            extra: seq<Id>)
    requires a != b && a != p && a != x && b != p && b != x && p != x
    requires a != "" && b != "" && p != "" && x != ""
    requires Cook.FreshRun(before, cooked.beads, Raw(Escaped(a, b, p, x)), ctx, extra)
    ensures b in ctx.steps && !RunsAfter(cooked, ctx, b, p)
  {
    EscapedIsWellFormed(a, b, p, x);
    EscapedWaitsForNothing(a, b, p, x);
    WaitingIsExact(Escaped(a, b, p, x), before, cooked, ctx, extra, 3, p);
  }

  // ---- a need that pruning drops -----------------------------------------

  function Guarded(id: string, needs: seq<string>, condition: string): Step {
    Named(id, needs, None).(condition := Some(condition))
  }

  /** The formula: `p`, then a step that needs `p` and expands into `outer`. */
  function Asking(p: string, t: string, outer: string): seq<Step> {
    [Named(p, [], None), Named(t, [p], Some(outer))]
  }

  function Only(outer: string, template: seq<Step>): map<string, Walked> {
    map[outer := Holding(template)]
  }

  lemma AskingExpands(env: Env, vars: Vars, depth: nat, p: string, t: string, outer: string, block: seq<Step>)
    requires ExpandStep(env, Named(t, [p], Some(outer)), vars, depth).result == Ok(block)
    ensures ExpandAll(env, Asking(p, t, outer), vars, depth).result == Ok([Named(p, [], None)] + block)
  {
    var target := Named(t, [p], Some(outer));
    OneExpands(env, target, vars, depth, block);
    FrontExpands(env, Named(p, [], None), [target], vars, depth, block);
    assert Asking(p, t, outer) == [Named(p, [], None)] + [target];
  }

  /** `a` stands under a condition, and `b` needs `a`. */
  function GuardedPair(a: string, b: string, c: string): seq<Step> {
    [Guarded(a, [], c), Named(b, [a], None)]
  }

  lemma GuardedPropagates(target: Step, a: string, b: string, c: string)
    ensures Propagated(target, GuardedPair(a, b, c)) == [Guarded(a, target.needs, c), Named(b, [a], None)]
  {
    RootGetsNeeds(target, GuardedPair(a, b, c), 0);
    NeedyKeepsNeeds(target, GuardedPair(a, b, c), 1, 0);
  }

  lemma GuardedBlock(env: Env, vars: Vars, depth: nat, a: string, b: string, p: string, t: string, c: string,
                     outer: string)
    requires outer in env.lib && env.lib[outer] == Holding(GuardedPair(a, b, c)) && depth <= MAX_EXPANSION_DEPTH
    requires PlainName(a) && PlainName(b) && TargetFree(c)
    ensures ExpandStep(env, Named(t, [p], Some(outer)), vars, depth).result ==
        Ok([Guarded(a, [p], c), Named(b, [a], None)])
  {
    var target, first, second := Named(t, [p], Some(outer)), Guarded(a, [p], c), Named(b, [a], None);
    var inside := PlainExpands(env, target, GuardedPair(a, b, c), vars, depth);
    GuardedPropagates(target, a, b, c);
    LeafExpands(env, first, inside, depth + 1);
    PairExpands(env, first, second, inside, depth + 1, [first]);
    assert [first] + [second] == [first, second];
  }

  /** The expanded formula before pruning. */
  function Unpruned(a: string, b: string, p: string, c: string): seq<Step> {
    [Named(p, [], None), Guarded(a, [p], c), Named(b, [a], None)]
  }

  lemma DroppedIsGone(first: Step, dropped: Step, last: Step, values: Condition.Values)
    requires Falls(dropped, values) && !Falls(first, values) && !Falls(last, values) && dropped.id.Some?
    ensures Standing([first, dropped, last], values) == [first, last]
    ensures GoneIds([first, dropped, last], values) == {dropped.id.value}
  {
    var two := [first] + [dropped];
    OneMoreStands([], first, values);
    OneMoreStands([first], dropped, values);
    OneMoreStands(two, last, values);
    OneMoreGone([], first, values);
    OneMoreGone([first], dropped, values);
    OneMoreGone(two, last, values);
    assert [] + [first] == [first] && two + [last] == [first, dropped, last] && [first] + [] == [first];
  }

  lemma PruningDropsNeed(a: string, b: string, p: string, c: string, values: Condition.Values)
    requires Condition.EvalCondition(c, values) == Ok(false)
    ensures Pruned(Unpruned(a, b, p, c), values) == [Named(p, [], None), Named(b, [], None)]
  {
    var first, dropped, last := Named(p, [], None), Guarded(a, [p], c), Named(b, [a], None);
    GuardFalls(a, [p], c, values);
    DroppedIsGone(first, dropped, last, values);
    BothFreed(a, b, p);
  }

  lemma GuardFalls(id: string, needs: seq<string>, c: string, values: Condition.Values)
    requires Condition.EvalCondition(c, values) == Ok(false)
    ensures Falls(Guarded(id, needs, c), values)
  {
  }

  lemma BothFreed(a: string, b: string, p: string)
    ensures FreedAll([Named(p, [], None), Named(b, [a], None)], {a}) == [Named(p, [], None), Named(b, [], None)]
  {
    assert [a][..0] == [] && NeedsLeft([a], {a}) == [];
    assert Freed(Named(p, [], None), {a}) == Named(p, [], None) &&
        Freed(Named(b, [a], None), {a}) == Named(b, [], None);
  }

  lemma UnprunedWaits(a: string, b: string, p: string, c: string)
    ensures Awaits(NeedsGraphOf(Unpruned(a, b, p, c)), Unpruned(a, b, p, c)[2], p)
  {
    var out := Unpruned(a, b, p, c);
    assert StepNeeds(out, 1, a, p);
    NeedsGraphEdge(out, a, p);
    EdgeReaches(NeedsGraphOf(out), a, p);
  }

  lemma IndependentIsWellFormed(p: string, b: string)
    requires p != b && p != "" && b != ""
    ensures Validate.WellFormed(Raw([Named(p, [], None), Named(b, [], None)]))
  {
    var raw := Raw([Named(p, [], None), Named(b, [], None)]);
    assert raw == [Validate.RawStep(Some(p), []), Validate.RawStep(Some(b), [])];
    var g := Validate.NeedsOf(Validate.EdgesOf(raw));
    forall u, v | Edge(g, u, v)
      ensures false
    {
      Validate.EdgesAreSteps(raw, u);
    }
    RankedIsAcyclic(g, map[]);
  }

  /** The pruned need: the expansion puts `p` behind both steps, but the condition of the one the other
      reaches it through is false. What is left compiles, validates, and waits for nothing. */
  lemma PrunedNeedEscapes(alnum: char -> bool, values: Condition.Values, a: string, b: string, p: string, t: string,
                          c: string, outer: string)
    requires a != b && a != p && b != p && p != "" && PlainName(a) && PlainName(b) && TargetFree(c)
    requires Condition.EvalCondition(c, values) == Ok(false)
    ensures var env, steps := Env(Only(outer, GuardedPair(a, b, c)), alnum), Asking(p, t, outer);
            var vars, out, left :=
                Condition.Defined(values), Unpruned(a, b, p, c), [Named(p, [], None), Named(b, [], None)];
            && p in steps[1].needs && ExpandAll(env, steps, vars, 1).result == Ok(out)
            && Awaits(NeedsGraphOf(out), out[2], p)
            && Compiled(env, steps, values) == Ok(left) && Validate.WellFormed(Raw(left))
            && !Awaits(NeedsGraphOf(left), left[1], p)
  {
    var env, vars := Env(Only(outer, GuardedPair(a, b, c)), alnum), Condition.Defined(values);
    UnprunedExpands(env, vars, 1, a, b, p, t, c, outer);
    UnprunedWaits(a, b, p, c);
    PruningDropsNeed(a, b, p, c, values);
    IndependentIsWellFormed(p, b);
  }

  lemma UnprunedExpands(env: Env, vars: Vars, depth: nat, a: string, b: string, p: string, t: string, c: string,
                        outer: string)
    requires outer in env.lib && env.lib[outer] == Holding(GuardedPair(a, b, c)) && depth <= MAX_EXPANSION_DEPTH
    requires PlainName(a) && PlainName(b) && TargetFree(c)
    ensures ExpandAll(env, Asking(p, t, outer), vars, depth).result == Ok(Unpruned(a, b, p, c))
  {
    var block := [Guarded(a, [p], c), Named(b, [a], None)];
    GuardedBlock(env, vars, depth, a, b, p, t, c, outer);
    AskingExpands(env, vars, depth, p, t, outer, block);
    assert [Named(p, [], None)] + block == Unpruned(a, b, p, c);
  }

  /** Such conditions: `{{name}} == value` with the name undefined. */
  lemma UndefinedConditionFalls(name: string, value: string, values: Condition.Values)
    requires Condition.PlainWord(name) && Condition.PlainWord(value) && name != "" && name[0] != 't'
    requires name !in values
    ensures TargetFree(Condition.Spelled(name, true, value))
    ensures Condition.EvalCondition(Condition.Spelled(name, true, value), values) == Ok(false)
  {
    Condition.SpelledMeans(name, true, value, values);
    var s := Condition.Spelled(name, true, value);
    forall j | 0 <= j < |s| - 1
      ensures s[j] == '{' ==> s[j + 1] != 't'
    {
      BraceIsInFront(name, value, j);
    }
  }

  lemma BraceIsInFront(name: string, value: string, j: nat)
    requires Condition.PlainWord(name) && Condition.PlainWord(value) && name != ""
    requires j < |Condition.Spelled(name, true, value)|
    ensures j >= 2 ==> Condition.Spelled(name, true, value)[j] != '{'
    ensures Condition.Spelled(name, true, value)[1] == '{' && Condition.Spelled(name, true, value)[2] == name[0]
  {
    var s, k := Condition.Spelled(name, true, value), |name| + 5;
    if 2 <= j < |name| + 2 {
      assert s[j] == name[j - 2] && name[j - 2] in name;
    } else if j >= k + 3 {
      assert s[j] == value[j - k - 3] && value[j - k - 3] in value;
    }
  }

  lemma IndependentRunsEarly(p: string, b: string, before: Beads, cooked: Tables, ctx: RunContext, extra: seq<Id>)
    requires p != b && p != "" && b != ""
    requires Cook.FreshRun(before, cooked.beads, Raw([Named(p, [], None), Named(b, [], None)]), ctx, extra)
    ensures b in ctx.steps && !RunsAfter(cooked, ctx, b, p)
  {
    IndependentIsWellFormed(p, b);
    WaitingIsExact([Named(p, [], None), Named(b, [], None)], before, cooked, ctx, extra, 1, p);
  }

  // ---- a nested template step --------------------------------------------

  function Parent(a: string, needs: seq<string>, b: string): Step {
    Named(a, needs, None).(children := [Named(b, [], None)])
  }

  /** The expanded formula: `b`, nested in `a`, comes out behind it, without its needs. */
  function Unnested(a: string, b: string, p: string): seq<Step> {
    [Named(p, [], None), Named(a, [p], None), Named(b, [], None)]
  }

  lemma NestedBlock(env: Env, vars: Vars, depth: nat, a: string, b: string, p: string, t: string, outer: string)
    requires outer in env.lib && env.lib[outer] == Holding([Parent(a, [], b)]) && depth <= MAX_EXPANSION_DEPTH
    requires PlainName(a) && PlainName(b)
    ensures ExpandStep(env, Named(t, [p], Some(outer)), vars, depth).result ==
        Ok([Named(a, [p], None), Named(b, [], None)])
  {
    var target, template := Named(t, [p], Some(outer)), [Parent(a, [], b)];
    var inside := PlainExpands(env, target, template, vars, depth);
    RootGetsNeeds(target, template, 0);
    var parent, child := Parent(a, [p], b), Named(b, [], None);
    assert Propagated(target, template) == [parent];
    assert FlattenedAll([]) == [] && [child][1..] == [];
    assert Flattened(child) == [child] && FlattenedAll([child]) == [child];
    assert Flattened(parent) == [Named(a, [p], None), child];
    OneExpands(env, parent, inside, depth + 1, [Named(a, [p], None), child]);
  }

  lemma UnnestedIsWellFormed(a: string, b: string, p: string)
    requires a != b && a != p && b != p && a != "" && b != "" && p != ""
    ensures Validate.WellFormed(Raw(Unnested(a, b, p)))
  {
    var raw := Raw(Unnested(a, b, p));
    assert raw == [Validate.RawStep(Some(p), []), Validate.RawStep(Some(a), [p]), Validate.RawStep(Some(b), [])];
    assert raw[0].id == Some(p) && p in Validate.Known(raw);
    var g, rank := Validate.NeedsOf(Validate.EdgesOf(raw)), map[p := 0, a := 1];
    forall u, v | Edge(g, u, v)
      ensures u in rank && v in rank && rank[v] < rank[u]
    {
      Validate.EdgesAreSteps(raw, u);
    }
    RankedIsAcyclic(g, rank);
  }

  /** The nested step: it compiles and validates, and the step nested in the template does not wait for
      what the target needed. */
  lemma NestedStepEscapes(alnum: char -> bool, values: Condition.Values, a: string, b: string, p: string, t: string,
                          outer: string)
    requires a != b && a != p && b != p && p != "" && PlainName(a) && PlainName(b)
    ensures var env, steps := Env(Only(outer, [Parent(a, [], b)]), alnum), Asking(p, t, outer);
            var out := Unnested(a, b, p);
            && p in steps[1].needs && ExpandAll(env, steps, Condition.Defined(values), 1).result == Ok(out)
            && Compiled(env, steps, values) == Ok(out) && Validate.WellFormed(Raw(out))
            && !Awaits(NeedsGraphOf(out), out[2], p)
  {
    var env, vars := Env(Only(outer, [Parent(a, [], b)]), alnum), Condition.Defined(values);
    var block := [Named(a, [p], None), Named(b, [], None)];
    NestedBlock(env, vars, 1, a, b, p, t, outer);
    AskingExpands(env, vars, 1, p, t, outer, block);
    assert [Named(p, [], None)] + block == Unnested(a, b, p);
    UnnestedIsWellFormed(a, b, p);
    NothingFallsStays(Unnested(a, b, p), values);
  }

  lemma NestedStepRunsEarly(a: string, b: string, p: string, before: Beads, cooked: Tables, ctx: RunContext,
                            extra: seq<Id>)
    requires a != b && a != p && b != p && a != "" && b != "" && p != ""
    requires Cook.FreshRun(before, cooked.beads, Raw(Unnested(a, b, p)), ctx, extra)
    ensures b in ctx.steps && !RunsAfter(cooked, ctx, b, p)
  {
    UnnestedIsWellFormed(a, b, p);
    WaitingIsExact(Unnested(a, b, p), before, cooked, ctx, extra, 2, p);
  }
}
