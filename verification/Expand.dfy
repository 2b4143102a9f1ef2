/** The expansion stage: a step that carries `expand` is replaced, where it stands, by the template
    of the formula it names, whose root steps inherit the step's needs. */
module Expand {
  import opened Wrappers
  import opened NeedsGraph
  import opened Formula
  import opened Extends
  import opened Braces

  const MAX_EXPANSION_DEPTH := 5

  // ---- substituting a template step --------------------------------------

  /** Rust's `replace` for a non-empty pattern. */
  function Replaced(s: string, pat: string, text: string): string
    requires pat != ""
    decreases |s|
  {
    if s == "" then ""
    else if OccursAt(s, pat, 0) then text + Replaced(s[|pat|..], pat, text)
    else [s[0]] + Replaced(s[1..], pat, text)
  }

  function OrEmpty(o: Option<string>): string {
    if o.Some? then o.value else ""
  }

  /** What expansion substitutes a template against: of the target, its id, title and description. */
  datatype Binding = Binding(alnum: char -> bool, id: string, title: string, description: string, vars: Vars)

  function BindingOf(alnum: char -> bool, target: Step, vars: Vars): Binding {
    Binding(alnum, OrEmpty(target.id), OrEmpty(target.title), OrEmpty(target.description), vars)
  }

  function TargetFamily(b: Binding, text: string): string {
    var byId := Replaced(text, "{target.id}", b.id);
    var byTitle := Replaced(byId, "{target.title}", b.title);
    var byDescription := Replaced(byTitle, "{target.description}", b.description);
    Replaced(byDescription, "{target}", b.id)
  }

  /** The target family first, then the variables. */
  function Sub(b: Binding, text: string): string {
    AtCompile(b.alnum, TargetFamily(b, text), b.vars)
  }

  function SubOption(b: Binding, o: Option<string>): Option<string> {
    if o.Some? then Some(Sub(b, o.value)) else None
  }

  function SubEach(b: Binding, s: seq<string>): seq<string> {
    seq(|s|, i requires 0 <= i < |s| => Sub(b, s[i]))
  }

  function SubValues(b: Binding, m: map<string, string>): map<string, string> {
    map k | k in m :: Sub(b, m[k])
  }

  /** Which fields of a template step are substituted: `condition` gets the target family only,
      `assignee` the variables only, and the rest of the step nothing. */
  function SubstitutedFields(b: Binding, tmpl: Step, children: seq<Step>): Step {
    Step(
      SubOption(b, tmpl.id),
      SubOption(b, tmpl.title),
      SubOption(b, tmpl.description),
      if tmpl.assignee.Some? then Some(AtCompile(b.alnum, tmpl.assignee.value, b.vars)) else None,
      SubEach(b, tmpl.needs),
      SubValues(b, tmpl.metadata),
      if tmpl.condition.Some? then Some(TargetFamily(b, tmpl.condition.value)) else None,
      SubOption(b, tmpl.checkPath),
      SubOption(b, tmpl.expand),
      SubValues(b, tmpl.expandVars),
      children,
      tmpl.rest)
  }

  function Substituted(b: Binding, tmpl: Step): Step
    decreases tmpl
  {
    SubstitutedFields(b, tmpl, SubstitutedAll(b, tmpl.children))
  }

  function SubstitutedAll(b: Binding, template: seq<Step>): (r: seq<Step>)
    ensures |r| == |template|
    decreases template
  {
    if template == [] then []
    else [Substituted(b, template[0])] + SubstitutedAll(b, template[1..])
  }

  /** The step, then its children, in order. */
  function Flattened(step: Step): seq<Step>
    decreases step
  {
    [step.(children := [])] + FlattenedAll(step.children)
  }

  function FlattenedAll(steps: seq<Step>): seq<Step>
    decreases steps
  {
    if steps == [] then [] else Flattened(steps[0]) + FlattenedAll(steps[1..])
  }

  method FlattenInto(step: Step, out: seq<Step>) returns (r: seq<Step>)
    ensures r == out + Flattened(step)
    decreases step
  {
    r := out + [step.(children := [])];
    assert step.children[0..] == step.children;
    for i := 0 to |step.children|
      invariant r + FlattenedAll(step.children[i..]) == out + Flattened(step)
    {
      assert step.children[i..][1..] == step.children[i + 1..];
      r := FlattenInto(step.children[i], r);
    }
  }

  // ---- the target's needs ------------------------------------------------

  /** A root of the expansion needs nothing inside it. */
  predicate IsRoot(step: Step, inside: set<string>) {
    forall n :: n in step.needs ==> n !in inside
  }

  ghost function Propagated(target: Step, expanded: seq<Step>): (r: seq<Step>)
    ensures |r| == |expanded|
  {
    seq(|expanded|, i requires 0 <= i < |expanded| =>
      if IsRoot(expanded[i], IdsOf(expanded)) then expanded[i].(needs := target.needs + expanded[i].needs)
      else expanded[i])
  }

  method PropagateTargetDeps(target: Step, expanded: array<Step>)
    modifies expanded
    ensures expanded[..] == Propagated(target, old(expanded[..]))
  {
    ghost var before := expanded[..];
    if target.needs == [] {
      assert forall i :: 0 <= i < |before| ==> Propagated(target, before)[i] == before[i];
      return;
    }
    var inside: set<string> := {};
    for i := 0 to expanded.Length
      invariant expanded[..] == before && inside == IdsOf(before[..i])
    {
      assert before[..i + 1] == before[..i] + [before[i]];
      if expanded[i].id.Some? {
        inside := inside + {expanded[i].id.value};
      }
    }
    assert before[..expanded.Length] == before;
    var roots: seq<nat> := [];
    for i := 0 to expanded.Length
      invariant expanded[..] == before
      invariant forall k :: k in roots <==> 0 <= k < i && IsRoot(before[k], inside)
      invariant forall a, b :: 0 <= a < b < |roots| ==> roots[a] != roots[b]
    {
      if IsRoot(expanded[i], inside) {
        roots := roots + [i];
      }
    }
    for r := 0 to |roots|
      invariant forall i :: 0 <= i < |before| ==>
          expanded[i] == if i in roots[..r] then before[i].(needs := target.needs + before[i].needs) else before[i]
    {
      var i := roots[r];
      assert i in roots && roots[..r + 1] == roots[..r] + [i];
      expanded[i] := expanded[i].(needs := target.needs + expanded[i].needs);
    }
    assert roots[..|roots|] == roots;
  }

  // ---- expansion as a function -------------------------------------------

  datatype ExpandError =
    | TooDeep(step: Option<string>)
    | NoSuchExpansion(name: string)
    | BadChain(cause: ChainError)
    | NoTemplate(name: string)

  datatype Notes = Notes(violations: seq<string>, refusals: seq<Refusal>, ignored: seq<string>)

  function Noted(a: Notes, b: Notes): Notes {
    Notes(a.violations + b.violations, a.refusals + b.refusals, a.ignored + b.ignored)
  }

  const NOTHING := Notes([], [], [])

  datatype Outcome = Outcome(result: Result<seq<Step>, ExpandError>, notes: Notes)

  /** What an expansion resolves against: the formulas, and which characters make a word. */
  datatype Env = Env(lib: Library, alnum: char -> bool)

  function Levels(depth: nat): nat {
    if depth <= MAX_EXPANSION_DEPTH then MAX_EXPANSION_DEPTH + 1 - depth else 0
  }

  /** The expansion's own defaults, under the target's overrides resolved against the caller's
      variables. */
  function ExpansionVars(env: Env, own: map<string, Option<string>>, overrides: map<string, string>,
                         callers: Vars): Vars
  {
    (map k | k in own && own[k].Some? :: own[k].value) +
    (map k | k in overrides :: AtCompile(env.alnum, AtCook(overrides[k], callers), callers))
  }

  /** The formula a target expands into, resolved. */
  function Loaded(env: Env, target: Step): Result<Walked, ExpandError>
    requires target.expand.Some?
  {
    var name := target.expand.value;
    if name !in env.lib then Err(NoSuchExpansion(name))
    else match ChainOf(env.lib, env.lib[name], [name])
      case Err(e) => Err(BadChain(e))
      case Ok(w) => if w.raw.template == [] then Err(NoTemplate(name)) else Ok(w)
  }

  function VarsFor(env: Env, target: Step, w: Walked, callers: Vars): Vars {
    ExpansionVars(env, w.raw.vars, target.expandVars, callers)
  }

  function TemplateFor(env: Env, target: Step, w: Walked, callers: Vars): seq<Step> {
    SubstitutedAll(BindingOf(env.alnum, target, VarsFor(env, target, w, callers)), w.raw.template)
  }

  ghost function ExpandOne(env: Env, target: Step, callers: Vars, depth: nat): Outcome
    requires target.expand.Some?
    decreases Levels(depth), 0
  {
    if depth > MAX_EXPANSION_DEPTH then Outcome(Err(TooDeep(target.id)), NOTHING)
    else match Loaded(env, target)
      case Err(e) => Outcome(Err(e), NOTHING)
      case Ok(w) =>
        var inner := Propagated(target, TemplateFor(env, target, w, callers));
        var rest := ExpandAll(env, inner, VarsFor(env, target, w, callers), depth + 1);
        Outcome(rest.result, Noted(Notes(w.violations, w.refusals, w.ignored), rest.notes))
  }

  ghost function ExpandStep(env: Env, step: Step, vars: Vars, depth: nat): Outcome
    decreases Levels(depth), 1
  {
    if step.expand.None? then Outcome(Ok(Flattened(step)), NOTHING) else ExpandOne(env, step, vars, depth)
  }

  ghost function ExpandAll(env: Env, steps: seq<Step>, vars: Vars, depth: nat): Outcome
    decreases Levels(depth), |steps| + 2
  {
    if steps == [] then Outcome(Ok([]), NOTHING)
    else
      var head := ExpandStep(env, steps[0], vars, depth);
      match head.result
      case Err(_) => head
      case Ok(block) =>
        var tail := ExpandAll(env, steps[1..], vars, depth);
        Outcome(match tail.result case Err(e) => Err(e) case Ok(more) => Ok(block + more),
                Noted(head.notes, tail.notes))
  }

  // ---- expansion as it runs ----------------------------------------------

  /** The compiler's findings so far, which every level of expansion adds to. */
  class Compilation {
    const env: Env
    var violations: seq<string>
    var refusals: seq<Refusal>
    var ignored: seq<string>

    constructor (env: Env)
      ensures this.env == env && Found() == NOTHING
    {
      this.env := env;
      violations, refusals, ignored := [], [], [];
    }

    ghost function Found(): Notes
      reads this
    {
      Notes(violations, refusals, ignored)
    }

    method Load(target: Step) returns (r: Result<Walked, ExpandError>)
      requires target.expand.Some?
      ensures r == Loaded(env, target)
    {
      var name := target.expand.value;
      if name !in env.lib {
        return Err(NoSuchExpansion(name));
      }
      var resolver := new Resolver(env.lib, [name]);
      var walked := resolver.Chain(env.lib[name]);
      if walked.Err? {
        return Err(BadChain(walked.error));
      }
      if walked.value.raw.template == [] {
        return Err(NoTemplate(name));
      }
      return Ok(walked.value);
    }

    /** The template of a target, with the target's needs on its roots. */
    method Instantiate(target: Step, w: Walked, callers: Vars) returns (inner: seq<Step>)
      ensures inner == Propagated(target, TemplateFor(env, target, w, callers))
    {
      var substituted := TemplateFor(env, target, w, callers);
      inner := PropagateInto(target, substituted);
    }

    method ExpandTarget(target: Step, callers: Vars, depth: nat) returns (r: Result<seq<Step>, ExpandError>)
      requires target.expand.Some?
      modifies this
      ensures r == ExpandOne(env, target, callers, depth).result
      ensures Found() == Noted(old(Found()), ExpandOne(env, target, callers, depth).notes)
      decreases Levels(depth), 0
    {
      NotedAssociates(old(Found()), NOTHING, NOTHING);
      if depth > MAX_EXPANSION_DEPTH {
        return Err(TooDeep(target.id));
      }
      var walked := Load(target);
      if walked.Err? {
        return Err(walked.error);
      }
      var w := walked.value;
      ghost var own := Notes(w.violations, w.refusals, w.ignored);
      violations, refusals, ignored := violations + w.violations, refusals + w.refusals, ignored + w.ignored;
      assert Found() == Noted(old(Found()), own);
      var vars := VarsFor(env, target, w, callers);
      var inner := Instantiate(target, w, callers);
      r := ExpandSteps(inner, vars, depth + 1);
      NotedAssociates(old(Found()), own, ExpandAll(env, inner, vars, depth + 1).notes);
    }

    method ExpandSteps(steps: seq<Step>, vars: Vars, depth: nat) returns (r: Result<seq<Step>, ExpandError>)
      modifies this
      ensures r == ExpandAll(env, steps, vars, depth).result
      ensures Found() == Noted(old(Found()), ExpandAll(env, steps, vars, depth).notes)
      decreases Levels(depth), 1
    {
      var out: seq<Step> := [];
      ghost var sofar := NOTHING;
      assert steps[0..] == steps;
      NotedAssociates(old(Found()), NOTHING, NOTHING);
      FrontUnit(ExpandAll(env, steps, vars, depth));
      for i := 0 to |steps|
        invariant Found() == Noted(old(Found()), sofar)
        invariant WithFront(out, sofar, ExpandAll(env, steps[i..], vars, depth)) == ExpandAll(env, steps, vars, depth)
      {
        var step := steps[i];
        ghost var head := ExpandStep(env, step, vars, depth);
        FrontAdvances(env, steps[i..], vars, depth, out, sofar);
        assert steps[i..][1..] == steps[i + 1..];
        NotedAssociates(old(Found()), sofar, head.notes);
        NotedAssociates(sofar, NOTHING, NOTHING);
        if step.expand.None? {
          out := FlattenInto(step, out);
        } else {
          var block := ExpandTarget(step, vars, depth);
          if block.Err? {
            return Err(block.error);
          }
          out := out + block.value;
        }
        sofar := Noted(sofar, head.notes);
      }
      NotedAssociates(sofar, NOTHING, NOTHING);
      assert ExpandAll(env, steps[|steps|..], vars, depth) == Outcome(Ok([]), NOTHING);
      assert out + [] == out;
      return Ok(out);
    }
  }

  /** The expanded template is a slice of its own; the propagation rewrites it where it lies. */
  method PropagateInto(target: Step, steps: seq<Step>) returns (r: seq<Step>)
    ensures r == Propagated(target, steps)
  {
    var expanded := new Step[|steps|](i requires 0 <= i < |steps| => steps[i]);
    assert expanded[..] == steps;
    PropagateTargetDeps(target, expanded);
    return expanded[..];
  }

  lemma FrontUnit(o: Outcome)
    ensures WithFront([], NOTHING, o) == o
  {
    NotedAssociates(o.notes, NOTHING, NOTHING);
    assert o.result.Ok? ==> [] + o.result.value == o.result.value;
  }

  /** Moving one step's expansion to the front already written. */
  lemma FrontAdvances(env: Env, steps: seq<Step>, vars: Vars, depth: nat, out: seq<Step>, sofar: Notes)
    requires steps != []
    ensures var head := ExpandStep(env, steps[0], vars, depth);
            WithFront(out, sofar, ExpandAll(env, steps, vars, depth)) ==
            match head.result
            case Err(e) => Outcome(Err(e), Noted(sofar, head.notes))
            case Ok(block) => WithFront(out + block, Noted(sofar, head.notes), ExpandAll(env, steps[1..], vars, depth))
  {
    var head, tail := ExpandStep(env, steps[0], vars, depth), ExpandAll(env, steps[1..], vars, depth);
    NotedAssociates(sofar, head.notes, tail.notes);
    if head.result.Ok? && tail.result.Ok? {
      assert out + (head.result.value + tail.result.value) == out + head.result.value + tail.result.value;
    }
  }

  ghost function WithFront(out: seq<Step>, sofar: Notes, o: Outcome): Outcome {
    Outcome(match o.result case Err(e) => Err(e) case Ok(more) => Ok(out + more), Noted(sofar, o.notes))
  }

  lemma NotedAssociates(a: Notes, b: Notes, c: Notes)
    ensures Noted(Noted(a, b), c) == Noted(a, Noted(b, c))
    ensures Noted(a, NOTHING) == a && Noted(NOTHING, a) == a
  {
    assert a.violations + b.violations + c.violations == a.violations + (b.violations + c.violations);
    assert a.refusals + b.refusals + c.refusals == a.refusals + (b.refusals + c.refusals);
    assert a.ignored + b.ignored + c.ignored == a.ignored + (b.ignored + c.ignored);
  }
}
