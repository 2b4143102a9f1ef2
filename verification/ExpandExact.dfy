/** Exactly which steps of an expanded formula wait for what an expanded step needed: those that did
    so without its needs, and those that reach a template step that is a root at every level. */
module ExpandExact {
  import opened Wrappers
  import opened NeedsGraph
  import opened Formula
  import opened Braces
  import opened Expand
  import opened ExpandNeeds
  import opened ExpandSafety
  import opened Prune

  // ---- roots at every level ----------------------------------------------

  ghost function RootsUnder(marked: bool, inner: seq<Step>): (r: seq<bool>)
    ensures |r| == |inner|
  {
    seq(|inner|, i requires 0 <= i < |inner| => marked && RootsOf(inner)[i])
  }

  /** For each step that ends up in place of `step`, whether it is a root of its template, and so is
      every template step on the way down to it from a marked one; read off the templates alone. */
  ghost function StepMarks(env: Env, step: Step, marked: bool, vars: Vars, depth: nat): seq<bool>
    decreases Levels(depth), 1
  {
    if step.expand.None? then [marked] + Unmarked(|FlattenedAll(step.children)|)
    else if depth > MAX_EXPANSION_DEPTH || Loaded(env, step).Err? then []
    else
      var inner := InnerOf(env, step, vars);
      MarksOf(env, inner, RootsUnder(marked, inner), InnerVars(env, step, vars), depth + 1)
  }

  ghost function MarksOf(env: Env, steps: seq<Step>, marks: seq<bool>, vars: Vars, depth: nat): seq<bool>
    requires |marks| == |steps|
    decreases Levels(depth), |steps| + 2
  {
    if steps == [] then []
    else StepMarks(env, steps[0], marks[0], vars, depth) + MarksOf(env, steps[1..], marks[1..], vars, depth)
  }

  lemma StepMarksIgnoreNeeds(env: Env, step: Step, needs: seq<string>, marked: bool, vars: Vars, depth: nat)
    ensures StepMarks(env, step.(needs := needs), marked, vars, depth) == StepMarks(env, step, marked, vars, depth)
  {
    if step.expand.Some? {
      InnerIgnoresNeeds(env, step, needs, vars);
    }
  }

  lemma {:induction false} MarksIgnoreNeeds(env: Env, steps: seq<Step>, seeds: seq<bool>, needs: seq<string>,
                                            marks: seq<bool>, vars: Vars, depth: nat)
    requires |seeds| == |marks| == |steps|
    ensures MarksOf(env, Seeded(steps, seeds, needs), marks, vars, depth) == MarksOf(env, steps, marks, vars, depth)
    decreases |steps|
  {
    if steps != [] {
      var after := Seeded(steps, seeds, needs);
      assert after[1..] == Seeded(steps[1..], seeds[1..], needs);
      MarksIgnoreNeeds(env, steps[1..], seeds[1..], needs, marks[1..], vars, depth);
      if seeds[0] {
        StepMarksIgnoreNeeds(env, steps[0], needs + steps[0].needs, marks[0], vars, depth);
      }
    }
  }

  // ---- expansion carries needs to the marked steps, and nowhere else ------

  /** The second result is the first with `needs` put on the marked steps, or the same failure. */
  ghost predicate CarriesNeeds(before: Result<seq<Step>, ExpandError>, after: Result<seq<Step>, ExpandError>,
                               marks: seq<bool>, needs: seq<string>) {
    match before
    case Err(_) => after == before
    case Ok(steps) => |marks| == |steps| && after == Ok(Seeded(steps, marks, needs))
  }

  ghost function WithNeeds(step: Step, marked: bool, needs: seq<string>): Step {
    if marked then step.(needs := needs + step.needs) else step
  }

  /** The target's own needs and further ones reach the same template steps. */
  lemma PropagatedCarries(target: Step, marked: bool, needs: seq<string>, inner: seq<Step>)
    ensures Propagated(WithNeeds(target, marked, needs), inner) ==
            Seeded(Propagated(target, inner), RootsUnder(marked, inner), needs)
  {
    var a, b := Propagated(WithNeeds(target, marked, needs), inner),
                Seeded(Propagated(target, inner), RootsUnder(marked, inner), needs);
    forall i | 0 <= i < |inner|
      ensures a[i] == b[i]
    {
      assert (needs + target.needs) + inner[i].needs == needs + (target.needs + inner[i].needs);
      if RootsOf(inner)[i] {
        assert Propagated(target, inner)[i] == inner[i].(needs := target.needs + inner[i].needs);
        assert a[i] == inner[i].(needs := WithNeeds(target, marked, needs).needs + inner[i].needs);
      } else {
        assert a[i] == inner[i] && b[i] == inner[i];
      }
    }
  }

  /** One level of an expansion, whatever further needs the step is given. */
  lemma LevelUnfolds(env: Env, step: Step, marked: bool, needs: seq<string>, vars: Vars, depth: nat)
    requires step.expand.Some? && depth <= MAX_EXPANSION_DEPTH && Loaded(env, step).Ok?
    ensures var inner, vars' := InnerOf(env, step, vars), InnerVars(env, step, vars);
            ExpandStep(env, WithNeeds(step, marked, needs), vars, depth).result ==
            ExpandAll(env, Seeded(Propagated(step, inner), RootsUnder(marked, inner), needs), vars', depth + 1).result
  {
    InnerIgnoresNeeds(env, step, needs + step.needs, vars);
    PropagatedCarries(step, marked, needs, InnerOf(env, step, vars));
  }

  lemma PlainLevelUnfolds(env: Env, step: Step, vars: Vars, depth: nat)
    requires step.expand.Some? && depth <= MAX_EXPANSION_DEPTH && Loaded(env, step).Ok?
    ensures var inner, vars' := InnerOf(env, step, vars), InnerVars(env, step, vars);
            ExpandStep(env, step, vars, depth).result ==
                ExpandAll(env, Propagated(step, inner), vars', depth + 1).result
  {
  }

  lemma MarksUnfold(env: Env, step: Step, marked: bool, vars: Vars, depth: nat)
    requires step.expand.Some? && depth <= MAX_EXPANSION_DEPTH && Loaded(env, step).Ok?
    ensures var inner, vars' := InnerOf(env, step, vars), InnerVars(env, step, vars);
            StepMarks(env, step, marked, vars, depth) ==
            MarksOf(env, Propagated(step, inner), RootsUnder(marked, inner), vars', depth + 1)
  {
    var inner, vars' := InnerOf(env, step, vars), InnerVars(env, step, vars);
    PropagatedIsSeeded(step, inner);
    MarksIgnoreNeeds(env, inner, RootsOf(inner), step.needs, RootsUnder(marked, inner), vars', depth + 1);
  }

  lemma FailsAlike(env: Env, step: Step, marked: bool, needs: seq<string>, vars: Vars, depth: nat)
    requires step.expand.Some? && (depth > MAX_EXPANSION_DEPTH || Loaded(env, step).Err?)
    ensures ExpandStep(env, WithNeeds(step, marked, needs), vars, depth).result ==
        ExpandStep(env, step, vars, depth).result
    ensures ExpandStep(env, step, vars, depth).result.Err?
  {
    InnerIgnoresNeeds(env, step, needs + step.needs, vars);
  }

  /** What the next level carries, this one does. */
  lemma LevelCarries(env: Env, step: Step, marked: bool, needs: seq<string>, vars: Vars, depth: nat)
    requires step.expand.Some? && depth <= MAX_EXPANSION_DEPTH && Loaded(env, step).Ok?
    requires var inner, vars', roots := InnerOf(env, step, vars), InnerVars(env, step, vars),
                                        RootsUnder(marked, InnerOf(env, step, vars));
             CarriesNeeds(ExpandAll(env, Propagated(step, inner), vars', depth + 1).result,
                          ExpandAll(env, Seeded(Propagated(step, inner), roots, needs), vars', depth + 1).result,
                          MarksOf(env, Propagated(step, inner), roots, vars', depth + 1), needs)
    ensures CarriesNeeds(ExpandStep(env, step, vars, depth).result,
                         ExpandStep(env, WithNeeds(step, marked, needs), vars, depth).result,
                         StepMarks(env, step, marked, vars, depth), needs)
  {
    LevelUnfolds(env, step, marked, needs, vars, depth);
    PlainLevelUnfolds(env, step, vars, depth);
    MarksUnfold(env, step, marked, vars, depth);
  }

  lemma {:induction false} StepCarriesNeeds(env: Env, step: Step, marked: bool, needs: seq<string>, vars: Vars,
                                            depth: nat)
    ensures CarriesNeeds(ExpandStep(env, step, vars, depth).result,
                         ExpandStep(env, WithNeeds(step, marked, needs), vars, depth).result,
                         StepMarks(env, step, marked, vars, depth), needs)
    decreases Levels(depth), 1
  {
    if step.expand.None? {
      SeededFlattens(step, marked, needs);
    } else if depth > MAX_EXPANSION_DEPTH || Loaded(env, step).Err? {
      FailsAlike(env, step, marked, needs, vars, depth);
    } else {
      var inner, vars' := InnerOf(env, step, vars), InnerVars(env, step, vars);
      AllCarryNeeds(env, Propagated(step, inner), RootsUnder(marked, inner), needs, vars', depth + 1);
      LevelCarries(env, step, marked, needs, vars, depth);
    }
  }

  lemma {:induction false} AllCarryNeeds(env: Env, steps: seq<Step>, marks: seq<bool>, needs: seq<string>, vars: Vars,
                                         depth: nat)
    requires |marks| == |steps|
    ensures CarriesNeeds(ExpandAll(env, steps, vars, depth).result,
                         ExpandAll(env, Seeded(steps, marks, needs), vars, depth).result,
                         MarksOf(env, steps, marks, vars, depth), needs)
    decreases Levels(depth), |steps| + 2
  {
    if steps != [] {
      var after := Seeded(steps, marks, needs);
      assert after[1..] == Seeded(steps[1..], marks[1..], needs) && after[0] == WithNeeds(steps[0], marks[0], needs);
      StepCarriesNeeds(env, steps[0], marks[0], needs, vars, depth);
      AllCarryNeeds(env, steps[1..], marks[1..], needs, vars, depth);
      var head, tail := ExpandStep(env, steps[0], vars, depth).result, ExpandAll(env, steps[1..], vars, depth).result;
      if head.Ok? && tail.Ok? {
        SeededConcat(head.value, tail.value, StepMarks(env, steps[0], marks[0], vars, depth),
                     MarksOf(env, steps[1..], marks[1..], vars, depth), needs);
      }
    }
  }

  // ---- the exact condition -----------------------------------------------

  /** The formula with the needs of step `k` taken off. */
  ghost function Stripped(steps: seq<Step>, k: nat): (r: seq<Step>)
    requires k < |steps|
    ensures |r| == |steps|
  {
    steps[k := steps[k].(needs := [])]
  }

  ghost function Only(n: nat, k: nat): (r: seq<bool>)
    ensures |r| == n
  {
    seq(n, i requires 0 <= i < n => i == k)
  }

  /** Of the expanded formula, the steps in place of step `k` that are roots at every level. */
  ghost function TopRoots(env: Env, steps: seq<Step>, vars: Vars, k: nat): seq<bool>
    requires k < |steps|
  {
    MarksOf(env, Stripped(steps, k), Only(|steps|, k), vars, 1)
  }

  lemma NeedsComeLast(env: Env, steps: seq<Step>, vars: Vars, k: nat)
    requires k < |steps| && ExpandAll(env, steps, vars, 1).result.Ok?
    ensures var bare := ExpandAll(env, Stripped(steps, k), vars, 1).result;
            && bare.Ok? && |TopRoots(env, steps, vars, k)| == |bare.value|
            && ExpandAll(env, steps, vars, 1).result.value ==
                Seeded(bare.value, TopRoots(env, steps, vars, k), steps[k].needs)
  {
    var bare, needs := Stripped(steps, k), steps[k].needs;
    assert needs + [] == needs;
    assert Seeded(bare, Only(|steps|, k), needs) == steps;
    AllCarryNeeds(env, bare, Only(|steps|, k), needs, vars, 1);
  }

  /** Whether step `j` of the expanded formula waits for `n` over ids that are not gone, once step `k`
      needs `n`: as it does with the needs of step `k` taken off, or by being or needing, over such
      ids, a step in the place of step `k` that is a root at every level. */
  ghost predicate WaitsAnywayOrAtRoot(env: Env, steps: seq<Step>, vars: Vars, k: nat, j: nat, n: string,
                                      gone: set<string>)
    requires k < |steps| && ExpandAll(env, steps, vars, 1).result.Ok? &&
        j < |ExpandAll(env, steps, vars, 1).result.value|
  {
    NeedsComeLast(env, steps, vars, k);
    var bare := ExpandAll(env, Stripped(steps, k), vars, 1).result.value;
    n !in gone &&
    (AwaitsClear(bare, bare[j], n, gone) || ReachesMarkClear(bare, TopRoots(env, steps, vars, k), j, gone))
  }

  /** Exactly, for every formula and library, with children, nesting and vanishing ids, and whichever
      ids pruning takes away: a step of the expanded formula waits for a need of step `k` if and
      only if it waits anyway or at a root. */
  lemma ExpansionAwaitsExactly(env: Env, steps: seq<Step>, vars: Vars, k: nat, j: nat, n: string, gone: set<string>)
    requires k < |steps| && n in steps[k].needs && ExpandAll(env, steps, vars, 1).result.Ok?
    requires j < |ExpandAll(env, steps, vars, 1).result.value|
    ensures var out := ExpandAll(env, steps, vars, 1).result.value;
            AwaitsClear(out, out[j], n, gone) <==> WaitsAnywayOrAtRoot(env, steps, vars, k, j, n, gone)
  {
    NeedsComeLast(env, steps, vars, k);
    ClearSeedingIsExact(ExpandAll(env, Stripped(steps, k), vars, 1).result.value, TopRoots(env, steps, vars, k),
        steps[k].needs, gone, j, n);
  }
}
