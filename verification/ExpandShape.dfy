/** The shape of expansion: the order in which nested steps come out, and how deep it may go. */
module ExpandShape {
  import opened Wrappers
  import opened NeedsGraph
  import opened Formula
  import opened Braces
  import opened Extends
  import opened Expand
  import opened ExpandText
  import opened ExpandGaps

  // ---- flattening --------------------------------------------------------

  /** Which child, of which child, and so on down. */
  type Place = seq<nat>

  /** The step at a place. */
  function StepAt(step: Step, p: Place): Option<Step>
    decreases |p|
  {
    if p == [] then Some(step) else StepIn(step.children, p)
  }

  function StepIn(steps: seq<Step>, p: Place): Option<Step>
    decreases |p|, 0
  {
    if p == [] || p[0] >= |steps| then None else StepAt(steps[p[0]], p[1..])
  }

  /** A step comes before what is below it, and that before its next sibling. */
  predicate Earlier(p: Place, q: Place) {
    if q == [] then false
    else if p == [] then true
    else p[0] < q[0] || (p[0] == q[0] && Earlier(p[1..], q[1..]))
  }

  ghost predicate InOrder(places: seq<Place>) {
    forall i, j :: 0 <= i < j < |places| ==> Earlier(places[i], places[j])
  }

  /** `flat` lists the steps at `places`, each without its children. */
  ghost predicate ListsPlaces(steps: seq<Step>, places: seq<Place>, flat: seq<Step>) {
    && InOrder(places) && StandsAt(steps, places, flat)
    && forall p :: StepIn(steps, p).Some? ==> p in places
  }

  ghost predicate StandsAt(steps: seq<Step>, places: seq<Place>, flat: seq<Step>) {
    |places| == |flat| &&
    forall i :: 0 <= i < |flat| ==>
      StepIn(steps, places[i]).Some? && flat[i] == StepIn(steps, places[i]).value.(children := [])
  }

  /** Places one level further down, below child `k`. */
  function Below(k: nat, places: seq<Place>): (r: seq<Place>)
    ensures |r| == |places|
  {
    seq(|places|, i requires 0 <= i < |places| => [k] + places[i])
  }

  /** Places among the siblings behind the first. */
  function Shifted(places: seq<Place>): (r: seq<Place>)
    ensures |r| == |places|
  {
    seq(|places|, i requires 0 <= i < |places| =>
      if places[i] == [] then [] else [places[i][0] + 1] + places[i][1..])
  }

  lemma BelowIsInOrder(k: nat, places: seq<Place>)
    requires InOrder(places)
    ensures InOrder(Below(k, places))
  {
    var r := Below(k, places);
    forall i, j | 0 <= i < j < |r|
      ensures Earlier(r[i], r[j])
    {
      assert r[i][1..] == places[i] && r[j][1..] == places[j];
    }
  }

  lemma ShiftedIsInOrder(places: seq<Place>)
    requires InOrder(places) && forall i :: 0 <= i < |places| ==> places[i] != []
    ensures InOrder(Shifted(places))
  {
    var r := Shifted(places);
    forall i, j | 0 <= i < j < |r|
      ensures Earlier(r[i], r[j])
    {
      assert r[i][1..] == places[i][1..] && r[j][1..] == places[j][1..];
    }
  }

  /** The places of a list: its first step, what is below it, and the siblings behind. */
  function PlacesOf(own: seq<Place>, rest: seq<Place>): seq<Place> {
    Below(0, [[]] + own) + Shifted(rest)
  }

  lemma PlacesInOrder(own: seq<Place>, rest: seq<Place>)
    requires InOrder(own) && InOrder(rest)
    requires (forall i :: 0 <= i < |own| ==> own[i] != []) && (forall i :: 0 <= i < |rest| ==> rest[i] != [])
    ensures InOrder(PlacesOf(own, rest))
  {
    var head, tail := Below(0, [[]] + own), Shifted(rest);
    var places := head + tail;
    BelowIsInOrder(0, [[]] + own);
    ShiftedIsInOrder(rest);
    forall i, j | 0 <= i < j < |places|
      ensures Earlier(places[i], places[j])
    {
      if i < |head| && j >= |head| {
        assert places[i][0] == 0 && places[j][0] == rest[j - |head|][0] + 1;
      }
    }
  }

  lemma StepBelow(steps: seq<Step>, q: Place)
    requires steps != []
    ensures StepIn(steps, [0] + q) == StepAt(steps[0], q)
  {
    assert ([0] + q)[1..] == q;
  }

  lemma StepBehind(steps: seq<Step>, q: Place)
    requires steps != [] && q != []
    ensures StepIn(steps, [q[0] + 1] + q[1..]) == StepIn(steps[1..], q)
  {
    assert ([q[0] + 1] + q[1..])[1..] == q[1..];
  }

  lemma StepsAtPlaces(steps: seq<Step>, own: seq<Place>, rest: seq<Place>, below: seq<Step>, flat: seq<Step>)
    requires steps != [] && StandsAt(steps[0].children, own, below) && StandsAt(steps[1..], rest, flat)
    ensures StandsAt(steps, PlacesOf(own, rest), [steps[0].(children := [])] + below + flat)
  {
    var places, all := PlacesOf(own, rest), [steps[0].(children := [])] + below + flat;
    forall i | 0 <= i < |all|
      ensures StepIn(steps, places[i]).Some? && all[i] == StepIn(steps, places[i]).value.(children := [])
    {
      if i <= |own| {
        StepBelow(steps, ([[]] + own)[i]);
      } else {
        StepBehind(steps, rest[i - |own| - 1]);
      }
    }
  }

  /** The places of one step and of those behind it make up those of the list. */
  lemma PlacesOfList(steps: seq<Step>, own: seq<Place>, rest: seq<Place>, flat: seq<Step>)
    requires steps != [] && ListsPlaces(steps[0].children, own, FlattenedAll(steps[0].children))
    requires ListsPlaces(steps[1..], rest, flat)
    ensures ListsPlaces(steps, PlacesOf(own, rest), Flattened(steps[0]) + flat)
  {
    PlacesInOrder(own, rest);
    StepsAtPlaces(steps, own, rest, FlattenedAll(steps[0].children), flat);
    forall p | StepIn(steps, p).Some?
      ensures p in PlacesOf(own, rest)
    {
      ListedPlace(steps, own, rest, p);
    }
  }

  lemma ListedPlace(steps: seq<Step>, own: seq<Place>, rest: seq<Place>, p: Place)
    requires steps != [] && StepIn(steps, p).Some?
    requires forall q :: StepIn(steps[0].children, q).Some? ==> q in own
    requires forall q :: StepIn(steps[1..], q).Some? ==> q in rest
    ensures p in PlacesOf(own, rest)
  {
    var places := PlacesOf(own, rest);
    if p[0] == 0 {
      var q := p[1..];
      assert StepAt(steps[0], q).Some?;
      assert ([[]] + own)[0] == [] && forall k :: 0 <= k < |own| ==> ([[]] + own)[k + 1] == own[k];
      assert q in [[]] + own;
      var i :| 0 <= i < |[[]] + own| && ([[]] + own)[i] == q;
      assert places[i] == [0] + q == p;
    } else {
      var q := [p[0] - 1] + p[1..];
      assert q[1..] == p[1..] && steps[1..][q[0]] == steps[p[0]];
      assert StepIn(steps[1..], q) == StepAt(steps[p[0]], p[1..]);
      assert q in rest;
      var i :| 0 <= i < |rest| && rest[i] == q;
      assert places[|own| + 1 + i] == [q[0] + 1] + q[1..] == p;
    }
  }

  /** Flattening lists every step of the tree once, whatever its depth, each without its children: a step
      first, then what is below it, child by child. */
  lemma {:induction false} FlatteningIsPreorder(steps: seq<Step>) returns (places: seq<Place>)
    ensures ListsPlaces(steps, places, FlattenedAll(steps))
    decreases steps
  {
    places := [];
    if steps != [] {
      var own := FlatteningIsPreorder(steps[0].children);
      var rest := FlatteningIsPreorder(steps[1..]);
      PlacesOfList(steps, own, rest, FlattenedAll(steps[1..]));
      places := PlacesOf(own, rest);
    }
  }

  // ---- depth -------------------------------------------------------------

  /** Each named formula's template is one step that expands into the next; the last one's is plain. */
  ghost predicate Stack(env: Env, names: seq<string>, x: string) {
    PlainName(x) && forall i :: 0 <= i < |names| ==> StackedAt(env, names, x, i)
  }

  ghost predicate StackedAt(env: Env, names: seq<string>, x: string, i: int)
    requires 0 <= i < |names|
  {
    && PlainName(names[i]) && names[i] in env.lib
    && env.lib[names[i]] == Holding([Named(x, [], NextName(names, i))])
  }

  function NextName(names: seq<string>, i: int): Option<string> {
    if 0 <= i < |names| - 1 then Some(names[i + 1]) else None
  }

  lemma OneIsAll(env: Env, step: Step, vars: Vars, depth: nat)
    ensures ExpandAll(env, [step], vars, depth).result.Ok? <==> ExpandStep(env, step, vars, depth).result.Ok?
    ensures ExpandStep(env, step, vars, depth).result.Err? ==>
        ExpandAll(env, [step], vars, depth).result == ExpandStep(env, step, vars, depth).result
  {
    assert [step][1..] == [];
  }

  /** Formulas stacked so are expanded down to the fifth level and no further: on from any one of them,
      expansion succeeds exactly when the last is met at depth five or before, and fails by naming the
      step that lies too deep. */
  lemma {:induction false} NestingIsBounded(env: Env, names: seq<string>, x: string, i: nat, needs: seq<string>,
                                            vars: Vars, depth: nat)
    requires i < |names| && Stack(env, names, x)
    ensures ExpandStep(env, Named(x, needs, Some(names[i])), vars, depth).result.Ok? <==>
            depth + (|names| - 1 - i) <= 5
    ensures ExpandStep(env, Named(x, needs, Some(names[i])), vars, depth).result.Err? ==>
        ExpandStep(env, Named(x, needs, Some(names[i])), vars, depth).result == Err(TooDeep(Some(x)))
    decreases |names| - i
  {
    assert StackedAt(env, names, x, i);
    if depth <= MAX_EXPANSION_DEPTH {
      var target, template := Named(x, needs, Some(names[i])), [Named(x, [], NextName(names, i))];
      assert i + 1 < |names| ==> StackedAt(env, names, x, i + 1);
      var inside := PlainExpands(env, target, template, vars, depth);
      RootGetsNeeds(target, template, 0);
      var below := Named(x, needs, NextName(names, i));
      assert Propagated(target, template) == [below];
      OneIsAll(env, below, inside, depth + 1);
      if i + 1 < |names| {
        NestingIsBounded(env, names, x, i + 1, needs, inside, depth + 1);
      } else {
        LeafExpands(env, below, inside, depth + 1);
      }
    }
  }

  // ---- findings ----------------------------------------------------------

  ghost predicate Holds(n: Notes, w: Walked) {
    && (forall v :: v in w.violations ==> v in n.violations)
    && (forall r :: r in w.refusals ==> r in n.refusals)
    && (forall i :: i in w.ignored ==> i in n.ignored)
  }

  /** What the formula of a target is found at fault for is among the findings, whether its expansion
      goes through or fails further down; a step is reached when those before it went through. */
  lemma {:induction false} FindingsAreKept(env: Env, steps: seq<Step>, vars: Vars, depth: nat, k: nat, w: Walked)
    requires k < |steps| && steps[k].expand.Some? && depth <= MAX_EXPANSION_DEPTH && Loaded(env, steps[k]) == Ok(w)
    requires forall i :: 0 <= i < k ==> ExpandStep(env, steps[i], vars, depth).result.Ok?
    ensures Holds(ExpandAll(env, steps, vars, depth).notes, w)
    decreases k
  {
    if k > 0 {
      FindingsAreKept(env, steps[1..], vars, depth, k - 1, w);
    } else {
      assert Holds(ExpandStep(env, steps[0], vars, depth).notes, w);
    }
  }

  // ---- what can be expanded ----------------------------------------------

  /** A target's formula is usable exactly when it exists, everything it extends exists without coming
      round, and some formula of its lineage has template steps. */
  lemma LoadsExactly(env: Env, target: Step)
    requires target.expand.Some?
    ensures var name := target.expand.value;
            Loaded(env, target).Ok? <==>
            && name in env.lib && Resolves(env.lib, name)
            && exists i :: 0 <= i < |LineageOf(env.lib, env.lib[name])| &&
                   LineageOf(env.lib, env.lib[name])[i].raw.template != []
    ensures target.expand.value !in env.lib ==>
        Loaded(env, target) == Err(NoSuchExpansion(target.expand.value))
    ensures target.expand.value in env.lib && Resolves(env.lib, target.expand.value) && Loaded(env, target).Err? ==>
        Loaded(env, target) == Err(NoTemplate(target.expand.value))
  {
    var lib, name := env.lib, target.expand.value;
    if name in lib {
      NamedResolutionIsExact(lib, name);
      if Resolves(lib, name) {
        ResolvesByParents(lib, name);
        ResolutionIsExact(lib, lib[name]);
        ChainIsFolded(lib, lib[name], [name]);
        LayersIgnoreVisiting(lib, lib[name], [name], []);
        var lineage, w := LineageOf(lib, lib[name]), ChainOf(lib, lib[name], [name]).value;
        LayersCarryLast(LayersOf(lib, lib[name], []));
        assert LastPresent(Templates(lineage), TemplateOf(w));
        assert forall i :: 0 <= i < |lineage| ==> Templates(lineage)[i] == TemplateOf(lineage[i]);
      }
    }
  }
}
