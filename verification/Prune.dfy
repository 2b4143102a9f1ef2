/** Pruning: the steps whose condition is false are dropped, and with them their refusals and
    whatever needs name them. */
module Prune {
  import opened Wrappers
  import opened NeedsGraph
  import opened Ordering
  import opened Condition
  import opened Formula
  import opened Overlay
  import opened ExpandNeeds
  import Braces
  import Cook
  import Expand
  import Validate

  /** The step list as validation and cook see it. */
  function Raw(steps: seq<Step>): seq<Validate.RawStep> {
    seq(|steps|, i requires 0 <= i < |steps| => Validate.RawStep(steps[i].id, steps[i].needs))
  }

  // ---- what is left ------------------------------------------------------

  /** The step's condition can be decided, and is false. */
  predicate Falls(s: Step, values: Values) {
    s.condition.Some? && EvalCondition(s.condition.value, values) == Ok(false)
  }

  function GoneIds(steps: seq<Step>, values: Values): set<string> {
    set s | s in steps && Falls(s, values) && s.id.Some? :: s.id.value
  }

  function NeedsLeft(needs: seq<string>, gone: set<string>): seq<string> {
    if needs == [] then []
    else NeedsLeft(needs[..|needs| - 1], gone) + if needs[|needs| - 1] in gone then [] else [needs[|needs| - 1]]
  }

  function Freed(s: Step, gone: set<string>): Step {
    s.(needs := NeedsLeft(s.needs, gone))
  }

  function Standing(steps: seq<Step>, values: Values): seq<Step> {
    if steps == [] then []
    else Standing(steps[..|steps| - 1], values) + if Falls(steps[|steps| - 1], values) then [] else [steps[|steps| - 1]]
  }

  function FreedAll(steps: seq<Step>, gone: set<string>): (r: seq<Step>)
    ensures |r| == |steps|
  {
    seq(|steps|, i requires 0 <= i < |steps| => Freed(steps[i], gone))
  }

  /** The steps that stay, in order, without their needs on dropped ones. */
  function Pruned(steps: seq<Step>, values: Values): seq<Step> {
    FreedAll(Standing(steps, values), GoneIds(steps, values))
  }

  datatype BadCondition = BadCondition(step: Option<string>, error: ConditionError)

  function Undecided(s: Step, values: Values): seq<BadCondition> {
    if s.condition.None? then []
    else match EvalCondition(s.condition.value, values)
      case Ok(_) => []
      case Err(e) => [BadCondition(s.id, e)]
  }

  function BadConditions(steps: seq<Step>, values: Values): seq<BadCondition> {
    if steps == [] then []
    else BadConditions(steps[..|steps| - 1], values) + Undecided(steps[|steps| - 1], values)
  }

  // ---- pruning as it runs ------------------------------------------------

  method FreeNeeds(step: Step, gone: set<string>) returns (r: Step)
    ensures r == Freed(step, gone)
  {
    var needs: seq<string> := [];
    for i := 0 to |step.needs|
      invariant needs == NeedsLeft(step.needs[..i], gone)
    {
      assert step.needs[..i + 1][..i] == step.needs[..i];
      if step.needs[i] !in gone {
        needs := needs + [step.needs[i]];
      }
    }
    assert step.needs[..|step.needs|] == step.needs;
    return step.(needs := needs);
  }

  method FreeAllNeeds(kept: seq<Step>, gone: set<string>) returns (left: seq<Step>)
    ensures left == FreedAll(kept, gone)
  {
    left := [];
    for i := 0 to |kept|
      invariant |left| == i && forall j :: 0 <= j < i ==> left[j] == Freed(kept[j], gone)
    {
      var freed := FreeNeeds(kept[i], gone);
      left := left + [freed];
    }
  }

  lemma OneMoreStands(some: seq<Step>, s: Step, values: Values)
    ensures Standing(some + [s], values) == Standing(some, values) + (if Falls(s, values) then [] else [s])
  {
    assert (some + [s])[..|some + [s]| - 1] == some;
  }

  lemma OneMoreGone(some: seq<Step>, s: Step, values: Values)
    ensures GoneIds(some + [s], values) ==
            GoneIds(some, values) + (if Falls(s, values) && s.id.Some? then {s.id.value} else {})
  {
  }

  lemma OneMoreDecided(some: seq<Step>, s: Step, values: Values)
    ensures BadConditions(some + [s], values) == BadConditions(some, values) + Undecided(s, values)
  {
    assert (some + [s])[..|some + [s]| - 1] == some;
  }

  lemma OneMoreStep(steps: seq<Step>, values: Values, i: nat)
    requires i < |steps|
    ensures var s, some, more := steps[i], steps[..i], steps[..i + 1];
            && Standing(more, values) == Standing(some, values) + (if Falls(s, values) then [] else [s])
            && GoneIds(more, values) ==
               GoneIds(some, values) + (if Falls(s, values) && s.id.Some? then {s.id.value} else {})
            && BadConditions(more, values) == BadConditions(some, values) + Undecided(s, values)
  {
    assert steps[..i + 1] == steps[..i] + [steps[i]];
    OneMoreStands(steps[..i], steps[i], values);
    OneMoreGone(steps[..i], steps[i], values);
    OneMoreDecided(steps[..i], steps[i], values);
  }

  /** Decide each condition; one that cannot be decided is a violation, and its step stays. */
  method KeepStanding(steps: seq<Step>, values: Values)
    returns (kept: seq<Step>, gone: set<string>, violations: seq<BadCondition>)
    ensures kept == Standing(steps, values) && gone == GoneIds(steps, values)
    ensures violations == BadConditions(steps, values)
  {
    kept, gone, violations := [], {}, [];
    for i := 0 to |steps|
      invariant kept == Standing(steps[..i], values) && gone == GoneIds(steps[..i], values)
      invariant violations == BadConditions(steps[..i], values)
    {
      var step := steps[i];
      OneMoreStep(steps, values, i);
      if step.condition.None? {
        kept := kept + [step];
      } else {
        match EvalCondition(step.condition.value, values) {
          case Ok(true) => kept := kept + [step];
          case Ok(false) =>
            if step.id.Some? {
              gone := gone + {step.id.value};
            }
          case Err(e) =>
            violations := violations + [BadCondition(step.id, e)];
            kept := kept + [step];
        }
      }
    }
    assert steps[..|steps|] == steps;
  }

  /** The steps, the refusals of those that stay, and the conditions that could not be decided. */
  method PruneConditions(raw: RawFormula, values: Values, refusals: seq<Refusal>)
    returns (pruned: RawFormula, violations: seq<BadCondition>, surviving: seq<Refusal>)
    ensures pruned == raw.(steps := Pruned(raw.steps, values))
    ensures violations == BadConditions(raw.steps, values)
    ensures surviving == Surviving(refusals, GoneIds(raw.steps, values))
  {
    var kept, gone, bad := KeepStanding(raw.steps, values);
    surviving := KeepSurviving(refusals, gone);
    var left := FreeAllNeeds(kept, gone);
    return raw.(steps := left), bad, surviving;
  }

  // ---- which steps and needs are left ------------------------------------

  lemma {:induction false} NeedsLeftAre(needs: seq<string>, gone: set<string>, n: string)
    ensures n in NeedsLeft(needs, gone) <==> n in needs && n !in gone
  {
    if needs != [] {
      NeedsLeftAre(needs[..|needs| - 1], gone, n);
      assert needs == needs[..|needs| - 1] + [needs[|needs| - 1]];
    }
  }

  lemma {:induction false} StandingAre(steps: seq<Step>, values: Values, s: Step)
    ensures s in Standing(steps, values) <==> s in steps && !Falls(s, values)
  {
    if steps != [] {
      StandingAre(steps[..|steps| - 1], values, s);
      assert steps == steps[..|steps| - 1] + [steps[|steps| - 1]];
    }
  }

  /** Exactly the steps whose condition is not false stay, each without its needs on dropped ones. */
  lemma PrunedAre(steps: seq<Step>, values: Values, t: Step)
    ensures t in Pruned(steps, values) <==>
            exists s :: s in steps && !Falls(s, values) && t == Freed(s, GoneIds(steps, values))
  {
    var kept, gone := Standing(steps, values), GoneIds(steps, values);
    if t in Pruned(steps, values) {
      var i :| 0 <= i < |kept| && Freed(kept[i], gone) == t;
      StandingAre(steps, values, kept[i]);
    }
    if s :| s in steps && !Falls(s, values) && t == Freed(s, gone) {
      StandingAre(steps, values, s);
      var i :| 0 <= i < |kept| && kept[i] == s;
      assert Pruned(steps, values)[i] == t;
    }
  }

  lemma {:induction false} StandingInOrder(steps: seq<Step>, values: Values) returns (at: seq<nat>)
    ensures Picks(steps, at, Standing(steps, values))
    ensures forall k :: k in at <==> 0 <= k < |steps| && !Falls(steps[k], values)
    decreases |steps|
  {
    at := [];
    if steps != [] {
      var init, last := steps[..|steps| - 1], steps[|steps| - 1];
      assert steps == init + [last];
      at := StandingInOrder(init, values);
      PicksSnoc(init, at, Standing(init, values), last);
      if !Falls(last, values) {
        at := at + [|init|];
      }
    }
  }

  lemma {:induction false} NeedsLeftInOrder(needs: seq<string>, gone: set<string>) returns (at: seq<nat>)
    ensures Picks(needs, at, NeedsLeft(needs, gone))
    ensures forall k :: k in at <==> 0 <= k < |needs| && needs[k] !in gone
    decreases |needs|
  {
    at := [];
    if needs != [] {
      var init, last := needs[..|needs| - 1], needs[|needs| - 1];
      assert needs == init + [last];
      at := NeedsLeftInOrder(init, gone);
      PicksSnoc(init, at, NeedsLeft(init, gone), last);
      if last !in gone {
        at := at + [|init|];
      }
    }
  }

  /** A step falls whose condition can be decided and is false; an id is gone that some falling step has. */
  lemma DroppedAre(steps: seq<Step>, values: Values, s: Step, id: string)
    ensures Falls(s, values) <==> s.condition.Some? && EvalCondition(s.condition.value, values) == Ok(false)
    ensures id in GoneIds(steps, values) <==>
            exists t :: t in steps && t.id == Some(id) && t.condition.Some? &&
                EvalCondition(t.condition.value, values) == Ok(false)
  {
  }

  /** Nothing else of a step changes, and its needs stay in order. */
  lemma FreedStep(s: Step, gone: set<string>) returns (at: seq<nat>)
    ensures Freed(s, gone) == s.(needs := Freed(s, gone).needs)
    ensures Picks(s.needs, at, Freed(s, gone).needs)
    ensures forall k :: k in at <==> 0 <= k < |s.needs| && s.needs[k] !in gone
  {
    at := NeedsLeftInOrder(s.needs, gone);
  }

  /** The conditions reported are exactly those that cannot be decided, each with its step and why. */
  lemma {:induction false} BadConditionsAre(steps: seq<Step>, values: Values, bad: BadCondition)
    ensures bad in BadConditions(steps, values) <==>
            exists s :: s in steps && s.id == bad.step && s.condition.Some? &&
                EvalCondition(s.condition.value, values) == Err(bad.error)
    decreases |steps|
  {
    if steps != [] {
      var init, last := steps[..|steps| - 1], steps[|steps| - 1];
      BadConditionsAre(init, values, bad);
      assert steps == init + [last];
    }
  }

  /** An id that is not gone is not that of a dropped step. */
  lemma NotGoneStands(steps: seq<Step>, values: Values, s: Step)
    requires s in steps && s.id.Some? && s.id.value !in GoneIds(steps, values)
    ensures !Falls(s, values)
  {
  }

  lemma PrunedStepNeeds(steps: seq<Step>, values: Values, u: string, n: string)
    requires u !in GoneIds(steps, values)
    ensures Edge(NeedsGraphOf(Pruned(steps, values)), u, n) <==>
            Edge(NeedsGraphOf(steps), u, n) && n !in GoneIds(steps, values)
  {
    var gone, after := GoneIds(steps, values), Pruned(steps, values);
    NeedsGraphEdge(steps, u, n);
    NeedsGraphEdge(after, u, n);
    if k :| StepNeeds(steps, k, u, n) && n !in gone {
      var s := steps[k];
      NeedsLeftAre(s.needs, gone, n);
      PrunedAre(steps, values, Freed(s, gone));
      var i :| 0 <= i < |after| && after[i] == Freed(s, gone);
      assert StepNeeds(after, i, u, n);
    }
    if k :| StepNeeds(after, k, u, n) {
      PrunedAre(steps, values, after[k]);
      var s :| s in steps && !Falls(s, values) && after[k] == Freed(s, gone);
      NeedsLeftAre(s.needs, gone, n);
      var i :| 0 <= i < |steps| && steps[i] == s;
      assert StepNeeds(steps, i, u, n);
    }
  }

  lemma {:induction false} AllStand(steps: seq<Step>, values: Values)
    requires forall s :: s in steps ==> !Falls(s, values)
    ensures Standing(steps, values) == steps
  {
    if steps != [] {
      var init, s := steps[..|steps| - 1], steps[|steps| - 1];
      assert steps == init + [s] && s in steps;
      AllStand(init, values);
    }
  }

  lemma {:induction false} NeedsStay(needs: seq<string>)
    ensures NeedsLeft(needs, {}) == needs
  {
    if needs != [] {
      assert needs == needs[..|needs| - 1] + [needs[|needs| - 1]];
      NeedsStay(needs[..|needs| - 1]);
    }
  }

  /** Where no condition is false there is nothing to prune. */
  lemma NothingFallsStays(steps: seq<Step>, values: Values)
    requires forall s :: s in steps ==> !Falls(s, values)
    ensures Pruned(steps, values) == steps && GoneIds(steps, values) == {}
  {
    AllStand(steps, values);
    assert GoneIds(steps, values) == {};
    forall i | 0 <= i < |steps|
      ensures Freed(steps[i], {}) == steps[i]
    {
      NeedsStay(steps[i].needs);
    }
  }

  /** Pruning once is enough. */
  lemma PruningIsIdempotent(steps: seq<Step>, values: Values)
    ensures Pruned(Pruned(steps, values), values) == Pruned(steps, values)
  {
    forall t | t in Pruned(steps, values)
      ensures !Falls(t, values)
    {
      PrunedAre(steps, values, t);
    }
    NothingFallsStays(Pruned(steps, values), values);
  }

  // ---- waiting after pruning ---------------------------------------------

  ghost predicate Clear(p: seq<string>, gone: set<string>) {
    forall x :: x in p ==> x !in gone
  }

  lemma ClearEnds(p: seq<string>, gone: set<string>)
    requires p != [] && Clear(p, gone)
    ensures p[|p| - 1] !in gone
  {
    assert p[|p| - 1] in p;
  }

  /** `p` leads from a need of `s` to `n`, in the formula before pruning, over ids that are not gone. */
  ghost predicate ClearWay(steps: seq<Step>, s: Step, n: string, gone: set<string>, p: seq<string>) {
    IsPath(NeedsGraphOf(steps), p) && Clear(p, gone) && p[0] in s.needs && p[|p| - 1] == n
  }

  ghost predicate AwaitsClear(steps: seq<Step>, s: Step, n: string, gone: set<string>) {
    exists p :: ClearWay(steps, s, n, gone, p)
  }

  lemma {:induction false} PrunedPath(steps: seq<Step>, values: Values, p: seq<string>)
    requires p != [] && p[0] !in GoneIds(steps, values)
    ensures IsPath(NeedsGraphOf(Pruned(steps, values)), p) <==>
            IsPath(NeedsGraphOf(steps), p) && Clear(p, GoneIds(steps, values))
    decreases |p|
  {
    var g, after := NeedsGraphOf(steps), NeedsGraphOf(Pruned(steps, values));
    if |p| > 1 {
      PrunedStepNeeds(steps, values, p[0], p[1]);
      var rest := p[1..];
      assert p == [p[0]] + rest;
      if IsPath(g, p) && Clear(p, GoneIds(steps, values)) {
        assert Hop(g, p, 0);
        PathTail(g, p, 1);
        PrunedPath(steps, values, rest);
        PathJoin(after, [p[0]], rest);
      }
      if IsPath(after, p) {
        assert Hop(after, p, 0);
        PathTail(after, p, 1);
        PrunedPath(steps, values, rest);
        PathJoin(g, [p[0]], rest);
      }
    }
  }

  lemma AwaitsIsPath(g: Graph, s: Step, n: string)
    ensures Awaits(g, s, n) <==> exists p :: IsPath(g, p) && p[0] in s.needs && p[|p| - 1] == n
  {
    if n in s.needs {
      assert IsPath(g, [n]) && [n][0] in s.needs && [n][|[n]| - 1] == n;
    } else if m :| m in s.needs && Reaches(g, m, n) {
      var p :| IsPath(g, p) && p[0] == m && p[|p| - 1] == n;
    }
    if p :| IsPath(g, p) && p[0] in s.needs && p[|p| - 1] == n {
      assert Reaches(g, p[0], n);
    }
  }

  /** Exactly, with ids repeated or not: a step that stays waits for `n` after pruning if and only if
      a way of ids that are not gone leads it there in the formula before pruning. */
  lemma PruningAwaitsExactly(steps: seq<Step>, values: Values, s: Step, n: string)
    requires s in steps && !Falls(s, values)
    ensures var gone, after := GoneIds(steps, values), Pruned(steps, values);
            && Freed(s, gone) in after
            && (Awaits(NeedsGraphOf(after), Freed(s, gone), n) <==> AwaitsClear(steps, s, n, gone))
  {
    var gone, after := GoneIds(steps, values), Pruned(steps, values);
    PrunedAre(steps, values, Freed(s, gone));
    AwaitsIsPath(NeedsGraphOf(after), Freed(s, gone), n);
    if p :| IsPath(NeedsGraphOf(after), p) && p[0] in Freed(s, gone).needs && p[|p| - 1] == n {
      NeedsLeftAre(s.needs, gone, p[0]);
      PrunedPath(steps, values, p);
      assert ClearWay(steps, s, n, gone, p);
    }
    if p :| ClearWay(steps, s, n, gone, p) {
      assert p[0] in p;
      NeedsLeftAre(s.needs, gone, p[0]);
      PrunedPath(steps, values, p);
    }
  }

  /** Without pruning this is plain waiting. */
  lemma NothingGone(steps: seq<Step>, s: Step, n: string)
    ensures AwaitsClear(steps, s, n, {}) <==> Awaits(NeedsGraphOf(steps), s, n)
  {
    AwaitsIsPath(NeedsGraphOf(steps), s, n);
    if p :| IsPath(NeedsGraphOf(steps), p) && p[0] in s.needs && p[|p| - 1] == n {
      assert ClearWay(steps, s, n, {}, p);
    }
  }

  // ---- further needs, and then pruning -----------------------------------

  /** The steps with nothing left that names a gone id: neither needs nor ids. */
  ghost function Cut(steps: seq<Step>, gone: set<string>): (r: seq<Step>)
    ensures |r| == |steps|
  {
    seq(|steps|, i requires 0 <= i < |steps| => CutStep(steps[i], gone))
  }

  ghost function CutStep(s: Step, gone: set<string>): Step {
    Freed(if s.id.Some? && s.id.value in gone then s.(id := None) else s, gone)
  }

  lemma CutEdge(steps: seq<Step>, gone: set<string>, u: string, n: string)
    ensures Edge(NeedsGraphOf(Cut(steps, gone)), u, n) <==>
            Edge(NeedsGraphOf(steps), u, n) && u !in gone && n !in gone
  {
    var cut := Cut(steps, gone);
    NeedsGraphEdge(steps, u, n);
    NeedsGraphEdge(cut, u, n);
    if k :| StepNeeds(steps, k, u, n) && u !in gone && n !in gone {
      NeedsLeftAre(steps[k].needs, gone, n);
      assert StepNeeds(cut, k, u, n);
    }
    if k :| StepNeeds(cut, k, u, n) {
      NeedsLeftAre(steps[k].needs, gone, n);
      assert StepNeeds(steps, k, u, n);
    }
  }

  lemma CutPath(steps: seq<Step>, gone: set<string>, p: seq<string>)
    requires p != [] && p[0] !in gone
    ensures IsPath(NeedsGraphOf(Cut(steps, gone)), p) <==> IsPath(NeedsGraphOf(steps), p) && Clear(p, gone)
  {
    var g, cut := NeedsGraphOf(steps), NeedsGraphOf(Cut(steps, gone));
    forall i | 0 <= i < |p| - 1
      ensures Hop(cut, p, i) <==> Hop(g, p, i) && p[i] !in gone && p[i + 1] !in gone
    {
      CutEdge(steps, gone, p[i], p[i + 1]);
    }
    if IsPath(cut, p) {
      forall x | x in p
        ensures x !in gone
      {
        var i :| 0 <= i < |p| && p[i] == x;
        assert i > 0 ==> Hop(cut, p, i - 1);
      }
    }
  }

  lemma CutAwaits(steps: seq<Step>, gone: set<string>, j: nat, n: string)
    requires j < |steps|
    ensures Awaits(NeedsGraphOf(Cut(steps, gone)), Cut(steps, gone)[j], n) <==> AwaitsClear(steps, steps[j], n, gone)
  {
    var cut := Cut(steps, gone);
    AwaitsIsPath(NeedsGraphOf(cut), cut[j], n);
    if p :| IsPath(NeedsGraphOf(cut), p) && p[0] in cut[j].needs && p[|p| - 1] == n {
      NeedsLeftAre(steps[j].needs, gone, p[0]);
      CutPath(steps, gone, p);
      assert ClearWay(steps, steps[j], n, gone, p);
    }
    if p :| ClearWay(steps, steps[j], n, gone, p) {
      assert p[0] in p;
      NeedsLeftAre(steps[j].needs, gone, p[0]);
      CutPath(steps, gone, p);
    }
  }

  lemma {:induction false} NeedsLeftConcat(a: seq<string>, b: seq<string>, gone: set<string>)
    ensures NeedsLeft(a + b, gone) == NeedsLeft(a, gone) + NeedsLeft(b, gone)
    decreases |b|
  {
    if b == [] {
      assert a + b == a;
    } else {
      assert (a + b)[..|a + b| - 1] == a + b[..|b| - 1];
      NeedsLeftConcat(a, b[..|b| - 1], gone);
    }
  }

  lemma CutSeeded(steps: seq<Step>, marks: seq<bool>, needs: seq<string>, gone: set<string>)
    requires |marks| == |steps|
    ensures Cut(Seeded(steps, marks, needs), gone) == Seeded(Cut(steps, gone), marks, NeedsLeft(needs, gone))
  {
    forall i | 0 <= i < |steps|
      ensures Cut(Seeded(steps, marks, needs), gone)[i] == Seeded(Cut(steps, gone), marks, NeedsLeft(needs, gone))[i]
    {
      NeedsLeftConcat(needs, steps[i].needs, gone);
    }
  }

  /** `p` leads from a need of step `k` to a marked step, over ids that are not gone. */
  ghost predicate ClearWayToMark(steps: seq<Step>, marks: seq<bool>, k: int, gone: set<string>, i: int, p: seq<string>)
    requires |marks| == |steps| && 0 <= k < |steps|
  {
    && IsPath(NeedsGraphOf(steps), p) && Clear(p, gone) && p[0] in steps[k].needs
    && MarkedAs(steps, marks, i, p[|p| - 1])
  }

  /** Step `k` is marked, or such a way leads it to a marked step. */
  ghost predicate ReachesMarkClear(steps: seq<Step>, marks: seq<bool>, k: int, gone: set<string>)
    requires |marks| == |steps| && 0 <= k < |steps|
  {
    marks[k] || exists i, p :: ClearWayToMark(steps, marks, k, gone, i, p)
  }

  lemma CutReachesMark(steps: seq<Step>, marks: seq<bool>, gone: set<string>, k: nat)
    requires |marks| == |steps| && k < |steps|
    ensures ReachesMark(Cut(steps, gone), marks, k) <==> ReachesMarkClear(steps, marks, k, gone)
  {
    var cut := Cut(steps, gone);
    if !marks[k] {
      if m :| m in cut[k].needs && LeadsToMark(cut, marks, m) {
        var i, u :| MarkedAs(cut, marks, i, u) && Reaches(NeedsGraphOf(cut), m, u);
        var p :| IsPath(NeedsGraphOf(cut), p) && p[0] == m && p[|p| - 1] == u;
        NeedsLeftAre(steps[k].needs, gone, m);
        CutPath(steps, gone, p);
        assert ClearWayToMark(steps, marks, k, gone, i, p);
      }
      if i, p :| ClearWayToMark(steps, marks, k, gone, i, p) {
        var m, u := p[0], p[|p| - 1];
        assert m in p && u in p;
        NeedsLeftAre(steps[k].needs, gone, m);
        CutPath(steps, gone, p);
        assert MarkedAs(cut, marks, i, u) && Reaches(NeedsGraphOf(cut), m, u);
      }
    }
  }

  /** Exactly, with pruning: a step comes to wait for a further need that is not gone if and only if it
      did so before, or it is or needs, over ids that are not gone, a marked step. */
  lemma ClearSeedingIsExact(steps: seq<Step>, marks: seq<bool>, needs: seq<string>, gone: set<string>, k: nat,
                            n: string)
    requires |marks| == |steps| && k < |steps| && n in needs
    ensures AwaitsClear(Seeded(steps, marks, needs), Seeded(steps, marks, needs)[k], n, gone) <==>
            n !in gone && (AwaitsClear(steps, steps[k], n, gone) || ReachesMarkClear(steps, marks, k, gone))
  {
    var after := Seeded(steps, marks, needs);
    if n in gone {
      if p :| ClearWay(after, after[k], n, gone, p) {
        ClearEnds(p, gone);
      }
    } else {
      NeedsLeftAre(needs, gone, n);
      CutAwaits(after, gone, k, n);
      CutAwaits(steps, gone, k, n);
      CutSeeded(steps, marks, needs, gone);
      CutReachesMark(steps, marks, gone, k);
      SeedingIsExact(Cut(steps, gone), marks, NeedsLeft(needs, gone), k, n);
    }
  }

  // ---- pruning keeps a formula valid -------------------------------------

  lemma {:induction false} NeedsLeftDistinct(needs: seq<string>, gone: set<string>)
    requires NoDuplicates(needs)
    ensures NoDuplicates(NeedsLeft(needs, gone))
  {
    if needs != [] {
      var init, last := needs[..|needs| - 1], needs[|needs| - 1];
      assert needs == init + [last];
      NoDuplicatesInit(init, last);
      NeedsLeftDistinct(init, gone);
      NeedsLeftAre(init, gone, last);
    }
  }

  lemma {:induction false} StandingDistinct(steps: seq<Step>, values: Values)
    requires forall i, j :: 0 <= i < j < |steps| ==> steps[i].id != steps[j].id
    ensures forall i, j :: 0 <= i < j < |Standing(steps, values)| ==>
        Standing(steps, values)[i].id != Standing(steps, values)[j].id
  {
    if steps != [] {
      var init, s := steps[..|steps| - 1], steps[|steps| - 1];
      StandingDistinct(init, values);
      var kept := Standing(init, values);
      forall i | 0 <= i < |kept|
        ensures kept[i].id != s.id
      {
        StandingAre(init, values, kept[i]);
        var k :| 0 <= k < |init| && init[k] == kept[i];
        assert steps[k].id != steps[|steps| - 1].id;
      }
    }
  }

  /** Where a kept step comes from. */
  lemma PrunedFrom(steps: seq<Step>, values: Values, i: nat) returns (k: nat)
    requires i < |Pruned(steps, values)|
    ensures k < |steps| && !Falls(steps[k], values)
    ensures Pruned(steps, values)[i] == Freed(steps[k], GoneIds(steps, values))
  {
    var after := Pruned(steps, values);
    PrunedAre(steps, values, after[i]);
    var s :| s in steps && !Falls(s, values) && after[i] == Freed(s, GoneIds(steps, values));
    k :| 0 <= k < |steps| && steps[k] == s;
  }

  lemma PrunedIsClosed(steps: seq<Step>, values: Values)
    requires Validate.ClosedUnderNeeds(Raw(steps))
    ensures Validate.ClosedUnderNeeds(Raw(Pruned(steps, values)))
  {
    var raw, after, gone := Raw(steps), Pruned(steps, values), GoneIds(steps, values);
    assert forall i, j :: 0 <= i < j < |steps| ==> steps[i].id != steps[j].id by {
      assert forall i, j :: 0 <= i < j < |raw| ==> raw[i].id != raw[j].id;
      assert forall i :: 0 <= i < |steps| ==> raw[i].id == steps[i].id;
    }
    StandingDistinct(steps, values);
    forall i | 0 <= i < |after|
      ensures Raw(after)[i].id.Some? && Raw(after)[i].id.value != "" && Validate.GoodNeeds(Raw(after), i)
    {
      var k := PrunedFrom(steps, values, i);
      assert raw[k].id == after[i].id && Validate.GoodNeeds(raw, k);
      NeedsLeftDistinct(steps[k].needs, gone);
      forall n | n in after[i].needs
        ensures Some(n) != after[i].id && n in Validate.Known(Raw(after))
      {
        NeedsLeftAre(steps[k].needs, gone, n);
        KnownStays(steps, values, n);
      }
    }
  }

  lemma KnownStays(steps: seq<Step>, values: Values, n: string)
    requires n in Validate.Known(Raw(steps)) && n !in GoneIds(steps, values)
    ensures n in Validate.Known(Raw(Pruned(steps, values)))
  {
    var after, gone := Pruned(steps, values), GoneIds(steps, values);
    var j :| 0 <= j < |Raw(steps)| && Raw(steps)[j].id == Some(n);
    assert steps[j] in steps && steps[j].id == Some(n);
    PrunedAre(steps, values, Freed(steps[j], gone));
    var i :| 0 <= i < |after| && after[i] == Freed(steps[j], gone);
    assert Raw(after)[i].id == Some(n);
  }

  lemma PrunedEdge(steps: seq<Step>, values: Values, u: string, n: string)
    requires Validate.ClosedUnderNeeds(Raw(steps))
    requires Edge(Validate.NeedsOf(Validate.EdgesOf(Raw(Pruned(steps, values)))), u, n)
    ensures Edge(Validate.NeedsOf(Validate.EdgesOf(Raw(steps))), u, n)
  {
    var after := Pruned(steps, values);
    Validate.EdgesAreSteps(Raw(after), u);
    var i :| 0 <= i < |Raw(after)| && Raw(after)[i].id == Some(u) && n in Raw(after)[i].needs;
    var k := PrunedFrom(steps, values, i);
    NeedsLeftAre(steps[k].needs, GoneIds(steps, values), n);
    assert Raw(steps)[k].id == Some(u) && n in Raw(steps)[k].needs;
    Cook.StepEdge(Raw(steps), k, n);
  }

  /** A valid formula is valid after pruning: no need dangles, and no cycle appears. */
  lemma PruningKeepsWellFormed(steps: seq<Step>, values: Values)
    requires Validate.WellFormed(Raw(steps))
    ensures Validate.WellFormed(Raw(Pruned(steps, values)))
  {
    PrunedIsClosed(steps, values);
    var g, after := Validate.NeedsOf(Validate.EdgesOf(Raw(steps))),
        Validate.NeedsOf(Validate.EdgesOf(Raw(Pruned(steps, values))));
    if p :| IsCycle(after, p) {
      forall i | 0 <= i < |p| - 1
        ensures Hop(g, p, i)
      {
        assert Hop(after, p, i);
        PrunedEdge(steps, values, p[i], p[i + 1]);
      }
      assert IsCycle(g, p);
    }
  }

  // ---- expansion, then pruning -------------------------------------------

  /** The steps a compile hands to validation: expanded, then pruned. */
  ghost function Compiled(env: Expand.Env, steps: seq<Step>, values: Values): Result<seq<Step>, Expand.ExpandError> {
    match Expand.ExpandAll(env, steps, Defined(values), 1).result
    case Err(e) => Err(e)
    case Ok(out) => Ok(Pruned(out, values))
  }
}
