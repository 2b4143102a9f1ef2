/** Laying a child formula over its parent: steps replaced whole and in place or appended, and the
    refusals of replaced steps dropped. */
module Overlay {
  import opened Wrappers
  import opened Formula

  // ---- placing steps -----------------------------------------------------

  function PositionOf(steps: seq<Step>, id: Option<string>): (r: Option<nat>)
    ensures r.Some? ==> id.Some? && r.value < |steps| && steps[r.value].id == id
    ensures r.Some? ==> forall j :: 0 <= j < r.value ==> steps[j].id != id
    ensures r.None? && id.Some? ==> forall j :: 0 <= j < |steps| ==> steps[j].id != id
  {
    if id.None? || steps == [] then None
    else if steps[0].id == id then Some(0)
    else match PositionOf(steps[1..], id)
      case None => None
      case Some(k) => Some(k + 1)
  }

  /** A step whose id is taken replaces that step where it stands; any other is appended. */
  function Place(steps: seq<Step>, s: Step): seq<Step> {
    match PositionOf(steps, s.id)
    case None => steps + [s]
    case Some(at) => steps[at := s]
  }

  function PlaceAll(steps: seq<Step>, more: seq<Step>): seq<Step>
    decreases |more|
  {
    if more == [] then steps else Place(PlaceAll(steps, more[..|more| - 1]), more[|more| - 1])
  }

  /** The ids under which something was replaced along the way. */
  function ReplacedIds(steps: seq<Step>, more: seq<Step>): set<string>
    decreases |more|
  {
    if more == [] then {}
    else
      var init, s := more[..|more| - 1], more[|more| - 1];
      ReplacedIds(steps, init) + if PositionOf(PlaceAll(steps, init), s.id).Some? then {s.id.value} else {}
  }

  predicate Stays(r: Refusal, gone: set<string>) {
    r.step.Some? ==> r.step.value !in gone
  }

  function Surviving(refusals: seq<Refusal>, gone: set<string>): seq<Refusal> {
    if refusals == [] then []
    else
      Surviving(refusals[..|refusals| - 1], gone) +
      if Stays(refusals[|refusals| - 1], gone) then [refusals[|refusals| - 1]] else []
  }

  function Or(a: Option<string>, b: Option<string>): Option<string> {
    if a.Some? then a else b
  }

  /** The child laid over the parent. */
  function Laid(parent: Walked, child: Walked): Walked {
    var p, c := parent.raw, child.raw;
    Walked(
      RawFormula(
        c.name,
        Or(c.description, p.description),
        Or(c.formulaCompiler, p.formulaCompiler),
        Or(c.contract, p.contract),
        Or(c.kind, p.kind),
        p.vars + c.vars,
        [],
        if c.template == [] then p.template else c.template,
        PlaceAll(p.steps, c.steps)),
      parent.violations + child.violations,
      Surviving(parent.refusals, ReplacedIds(p.steps, c.steps)) + child.refusals,
      parent.ignored + child.ignored)
  }

  method PlaceSteps(parents: seq<Step>, children: seq<Step>) returns (steps: seq<Step>, replaced: set<string>)
    ensures steps == PlaceAll(parents, children) && replaced == ReplacedIds(parents, children)
  {
    steps, replaced := parents, {};
    for i := 0 to |children|
      invariant steps == PlaceAll(parents, children[..i])
      invariant replaced == ReplacedIds(parents, children[..i])
    {
      var step := children[i];
      assert children[..i + 1][..i] == children[..i];
      var existing := PositionOf(steps, step.id);
      if existing.Some? {
        replaced := replaced + {step.id.value};
        steps := steps[existing.value := step];
      } else {
        steps := steps + [step];
      }
    }
    assert children[..|children|] == children;
  }

  method KeepSurviving(refusals: seq<Refusal>, replaced: set<string>) returns (kept: seq<Refusal>)
    ensures kept == Surviving(refusals, replaced)
  {
    kept := [];
    for i := 0 to |refusals|
      invariant kept == Surviving(refusals[..i], replaced)
    {
      assert refusals[..i + 1][..i] == refusals[..i];
      if Stays(refusals[i], replaced) {
        kept := kept + [refusals[i]];
      }
    }
    assert refusals[..|refusals|] == refusals;
  }

  /** The child's steps laid one by one over the parent's; then the parent's refusals of replaced
      steps dropped. */
  method LayOver(parent: Walked, child: Walked) returns (r: Walked)
    ensures r == Laid(parent, child)
  {
    var p, c := parent.raw, child.raw;
    var steps, replaced := PlaceSteps(p.steps, c.steps);
    var refusals := KeepSurviving(parent.refusals, replaced);
    var template := if c.template == [] then p.template else c.template;
    r := Walked(
      RawFormula(c.name, Or(c.description, p.description), Or(c.formulaCompiler, p.formulaCompiler),
                 Or(c.contract, p.contract), Or(c.kind, p.kind), p.vars + c.vars, [], template, steps),
      parent.violations + child.violations, refusals + child.refusals, parent.ignored + child.ignored);
  }

  // ---- how placing behaves -----------------------------------------------

  lemma PlaceKeepsUnique(steps: seq<Step>, s: Step)
    requires UniqueIds(steps)
    ensures UniqueIds(Place(steps, s))
  {
  }

  lemma PlaceAddsId(steps: seq<Step>, s: Step)
    ensures IdsOf(Place(steps, s)) == IdsOf(steps) + if s.id.Some? then {s.id.value} else {}
  {
    var placed := Place(steps, s);
    assert s in placed by {
      match PositionOf(steps, s.id)
      case None => assert placed[|steps|] == s;
      case Some(at) => assert placed[at] == s;
    }
    forall t | t in steps && t.id.Some?
      ensures t.id.value in IdsOf(placed)
    {
      var i :| 0 <= i < |steps| && steps[i] == t;
      assert placed[i] == t || placed[i] == s;
      assert placed[i] in placed;
    }
  }

  lemma {:induction false} PlaceAllIds(steps: seq<Step>, more: seq<Step>)
    ensures IdsOf(PlaceAll(steps, more)) == IdsOf(steps) + IdsOf(more)
    ensures UniqueIds(steps) ==> UniqueIds(PlaceAll(steps, more))
    decreases |more|
  {
    if more != [] {
      var init, s := more[..|more| - 1], more[|more| - 1];
      PlaceAllIds(steps, init);
      PlaceAddsId(PlaceAll(steps, init), s);
      LastIdIsNew(more);
      if UniqueIds(steps) {
        PlaceKeepsUnique(PlaceAll(steps, init), s);
      }
    }
  }

  /** With unique ids in the child, exactly the common ids are replaced. */
  lemma {:induction false} ReplacedAreCommon(steps: seq<Step>, more: seq<Step>)
    requires UniqueIds(more)
    ensures ReplacedIds(steps, more) == IdsOf(steps) * IdsOf(more)
    decreases |more|
  {
    if more != [] {
      var init, s := more[..|more| - 1], more[|more| - 1];
      ReplacedAreCommon(steps, init);
      PlaceAllIds(steps, init);
      PositionIffId(PlaceAll(steps, init), s.id);
      LastIdIsNew(more);
      assert s.id.None? ==> IdsOf(more) == IdsOf(init);
    }
  }

  lemma LastIdIsNew(steps: seq<Step>)
    requires steps != []
    ensures var init, s := steps[..|steps| - 1], steps[|steps| - 1];
            IdsOf(steps) == IdsOf(init) + if s.id.Some? then {s.id.value} else {}
    ensures var init, s := steps[..|steps| - 1], steps[|steps| - 1];
            UniqueIds(steps) && s.id.Some? ==> s.id.value !in IdsOf(init)
  {
    var init, s := steps[..|steps| - 1], steps[|steps| - 1];
    assert steps == init + [s];
    assert UniqueIds(steps) ==> forall i :: 0 <= i < |init| ==> !SameId(steps[i], steps[|steps| - 1]);
  }

  lemma PositionIffId(steps: seq<Step>, id: Option<string>)
    ensures PositionOf(steps, id).Some? <==> id.Some? && id.value in IdsOf(steps)
  {
    if PositionOf(steps, id).Some? {
      assert steps[PositionOf(steps, id).value] in steps;
    }
  }

  lemma PositionIs(steps: seq<Step>, id: Option<string>, k: nat)
    requires k < |steps| && id.Some? && steps[k].id == id
    requires forall j :: 0 <= j < k ==> steps[j].id != id
    ensures PositionOf(steps, id) == Some(k)
  {
  }

  lemma PlaceAbsorbs(steps: seq<Step>, t: Step, s: Step)
    requires SameId(s, t)
    ensures Place(Place(steps, t), s) == Place(steps, s)
  {
    match PositionOf(steps, s.id)
    case None => PositionIs(steps + [t], s.id, |steps|);
    case Some(at) => PositionIs(steps[at := t], s.id, at);
  }

  lemma PlaceCommutes(steps: seq<Step>, s: Step, t: Step)
    requires PositionOf(steps, s.id).Some? && s.id != t.id
    ensures Place(Place(steps, s), t) == Place(Place(steps, t), s)
  {
    var i := PositionOf(steps, s.id).value;
    match PositionOf(steps, t.id)
    case None => PlaceCommutesWithNew(steps, s, t, i);
    case Some(j) =>
      PositionIs(steps[i := s], t.id, j);
      PositionIs(steps[j := t], s.id, i);
      assert steps[i := s][j := t] == steps[j := t][i := s];
  }

  lemma PlaceAt(steps: seq<Step>, s: Step, i: nat)
    requires PositionOf(steps, s.id) == Some(i)
    ensures Place(steps, s) == steps[i := s]
  {
  }

  lemma PlaceBehind(steps: seq<Step>, s: Step)
    requires PositionOf(steps, s.id) == None
    ensures Place(steps, s) == steps + [s]
  {
  }

  lemma PlaceCommutesWithNew(steps: seq<Step>, s: Step, t: Step, i: nat)
    requires PositionOf(steps, s.id) == Some(i) && PositionOf(steps, t.id) == None && s.id != t.id
    ensures Place(Place(steps, s), t) == Place(Place(steps, t), s)
  {
    var more, changed := steps + [t], steps[i := s];
    PlaceAt(steps, s, i);
    PlaceBehind(steps, t);
    PositionIs(more, s.id, i);
    PlaceAt(more, s, i);
    PositionIsNone(changed, t.id);
    PlaceBehind(changed, t);
    assert more[i := s] == changed + [t];
  }

  lemma PositionIsNone(steps: seq<Step>, id: Option<string>)
    requires id.Some? ==> forall j :: 0 <= j < |steps| ==> steps[j].id != id
    ensures PositionOf(steps, id) == None
  {
  }

  lemma PlaceAllSnoc(a: seq<Step>, m: seq<Step>, s: Step)
    ensures PlaceAll(a, m + [s]) == Place(PlaceAll(a, m), s)
  {
    assert (m + [s])[..|m + [s]| - 1] == m;
  }

  /** Merging a step into what is laid over, or laying it over afterwards, is the same. */
  lemma {:induction false} PlaceInside(a: seq<Step>, m: seq<Step>, s: Step)
    requires UniqueIds(m)
    ensures PlaceAll(a, Place(m, s)) == Place(PlaceAll(a, m), s)
    decreases |m|
  {
    match PositionOf(m, s.id)
    case None => PlaceAllSnoc(a, m, s);
    case Some(at) =>
      var init, t := m[..|m| - 1], m[|m| - 1];
      assert m == init + [t];
      if at == |m| - 1 {
        assert m[at := s] == init + [s];
        PlaceAllSnoc(a, init, s);
        PlaceAbsorbs(PlaceAll(a, init), t, s);
      } else {
        assert m[at := s] == init[at := s] + [t];
        PositionIs(init, s.id, at);
        PlaceAllSnoc(a, init[at := s], t);
        PlaceInside(a, init, s);
        HeldAfterPlacing(a, init, s.id);
        assert !SameId(m[at], m[|m| - 1]);
        PlaceCommutes(PlaceAll(a, init), s, t);
      }
  }

  lemma HeldAfterPlacing(a: seq<Step>, m: seq<Step>, id: Option<string>)
    requires PositionOf(m, id).Some?
    ensures PositionOf(PlaceAll(a, m), id).Some?
  {
    PositionIffId(m, id);
    PlaceAllIds(a, m);
    PositionIffId(PlaceAll(a, m), id);
  }

  /** Laying step lists over one another is associative. */
  lemma {:induction false} PlaceAllAssociative(a: seq<Step>, b: seq<Step>, c: seq<Step>)
    requires UniqueIds(b)
    ensures PlaceAll(a, PlaceAll(b, c)) == PlaceAll(PlaceAll(a, b), c)
    decreases |c|
  {
    if c != [] {
      var init, s := c[..|c| - 1], c[|c| - 1];
      PlaceAllAssociative(a, b, init);
      PlaceAllIds(b, init);
      PlaceInside(a, PlaceAll(b, init), s);
    }
  }

  lemma {:induction false} PlaceAllConcat(a: seq<Step>, b: seq<Step>, c: seq<Step>)
    ensures PlaceAll(a, b + c) == PlaceAll(PlaceAll(a, b), c)
    decreases |c|
  {
    if c == [] {
      assert b + c == b;
    } else {
      var init := c[..|c| - 1];
      assert (b + c)[..|b + c| - 1] == b + init;
      PlaceAllConcat(a, b, init);
    }
  }

  lemma {:induction false} UniqueStays(steps: seq<Step>)
    requires UniqueIds(steps)
    ensures PlaceAll([], steps) == steps
  {
    if steps != [] {
      var init, s := steps[..|steps| - 1], steps[|steps| - 1];
      UniqueStays(init);
      forall i | 0 <= i < |init| && s.id.Some?
        ensures init[i].id != s.id
      {
        assert !SameId(steps[i], steps[|steps| - 1]);
      }
      PositionIsNone(init, s.id);
      PlaceBehind(init, s);
      assert steps == init + [s];
    }
  }

  // ---- the closed form ---------------------------------------------------

  ghost predicate FirstOf(all: seq<Step>, k: nat) {
    k < |all| && forall i :: 0 <= i < k ==> !SameId(all[i], all[k])
  }

  ghost predicate LastOf(all: seq<Step>, k: nat) {
    k < |all| && forall i :: k < i < |all| ==> !SameId(all[i], all[k])
  }

  /** `merged` holds one step per id of `all`, in the order of the first definers (`first`), each
      with the body of its last definer (`last`); a step without an id defines only itself. */
  ghost predicate Describes(all: seq<Step>, first: seq<nat>, last: seq<nat>, merged: seq<Step>) {
    && |first| == |last| == |merged|
    && (forall i, j :: 0 <= i < j < |first| ==> first[i] < first[j])
    && (forall k: nat :: FirstOf(all, k) <==> k in first)
    && (forall i :: 0 <= i < |merged| ==>
          && first[i] < |all| && LastOf(all, last[i]) && merged[i] == all[last[i]]
          && (last[i] == first[i] || SameId(all[first[i]], all[last[i]])))
  }

  lemma {:induction false} MergedIsClosedForm(all: seq<Step>) returns (first: seq<nat>, last: seq<nat>)
    ensures Describes(all, first, last, PlaceAll([], all))
    decreases |all|
  {
    if all == [] {
      return [], [];
    }
    var init, s := all[..|all| - 1], all[|all| - 1];
    first, last := MergedIsClosedForm(init);
    var merged := PlaceAll([], init);
    PlaceAllIds([], init);
    PositionIffId(merged, s.id);
    assert all == init + [s];
    match PositionOf(merged, s.id)
    case None =>
      DescribesAppended(init, first, last, merged, s);
      first, last := first + [|init|], last + [|init|];
    case Some(at) =>
      DescribesReplaced(init, first, last, merged, s, at);
      last := last[at := |init|];
  }

  lemma FirstOfGrows(all: seq<Step>, s: Step, k: nat)
    requires k < |all|
    ensures FirstOf(all + [s], k) <==> FirstOf(all, k)
    ensures LastOf(all + [s], k) <==> LastOf(all, k) && !SameId(s, all[k])
  {
    var more := all + [s];
    assert more[|all|] == s && forall i :: 0 <= i < |all| ==> more[i] == all[i];
    if LastOf(all, k) && !SameId(s, all[k]) {
      forall i | k < i < |more|
        ensures !SameId(more[i], more[k])
      {
        assert i < |all| ==> !SameId(all[i], all[k]);
      }
    }
    if LastOf(more, k) {
      forall i | k < i < |all|
        ensures !SameId(all[i], all[k])
      {
        assert !SameId(more[i], more[k]);
      }
    }
  }

  lemma DescribesAppended(all: seq<Step>, first: seq<nat>, last: seq<nat>, merged: seq<Step>, s: Step)
    requires Describes(all, first, last, merged)
    requires s.id.Some? ==> s.id.value !in IdsOf(all)
    ensures Describes(all + [s], first + [|all|], last + [|all|], merged + [s])
  {
    var more, first', last' := all + [s], first + [|all|], last + [|all|];
    assert forall i :: 0 <= i < |all| ==> all[i] in all && !SameId(s, all[i]);
    forall k: nat
      ensures FirstOf(more, k) <==> k in first'
    {
      if k < |all| {
        FirstOfGrows(all, s, k);
      }
      assert k in first' <==> k in first || k == |all|;
      assert k in first ==> FirstOf(all, k);
    }
    forall i | 0 <= i < |merged|
      ensures LastOf(more, last'[i])
    {
      FirstOfGrows(all, s, last[i]);
    }
    forall i | 0 <= i < |first|
      ensures first[i] < |all|
    {
      assert first[i] in first;
    }
  }

  lemma DescribesReplaced(all: seq<Step>, first: seq<nat>, last: seq<nat>, merged: seq<Step>, s: Step, at: nat)
    requires Describes(all, first, last, merged) && UniqueIds(merged)
    requires at < |merged| && SameId(s, merged[at])
    ensures Describes(all + [s], first, last[at := |all|], merged[at := s])
  {
    var more, last' := all + [s], last[at := |all|];
    forall k: nat
      ensures FirstOf(more, k) <==> k in first
    {
      if k < |all| {
        FirstOfGrows(all, s, k);
      } else {
        assert SameId(more[last[at]], more[|all|]);
        assert k in first ==> FirstOf(all, k);
      }
    }
    forall i | 0 <= i < |merged| && i != at
      ensures LastOf(more, last'[i])
    {
      assert !SameId(merged[i], merged[at]) && !SameId(merged[at], merged[i]);
      FirstOfGrows(all, s, last[i]);
    }
  }

  // ---- associativity -----------------------------------------------------

  lemma {:induction false} SurvivingMembers(refusals: seq<Refusal>, gone: set<string>, r: Refusal)
    ensures r in Surviving(refusals, gone) <==> r in refusals && Stays(r, gone)
  {
    if refusals != [] {
      SurvivingMembers(refusals[..|refusals| - 1], gone, r);
      assert refusals == refusals[..|refusals| - 1] + [refusals[|refusals| - 1]];
    }
  }

  lemma {:induction false} SurvivingConcat(x: seq<Refusal>, y: seq<Refusal>, gone: set<string>)
    ensures Surviving(x + y, gone) == Surviving(x, gone) + Surviving(y, gone)
    decreases |y|
  {
    if y == [] {
      assert x + y == x;
    } else {
      assert (x + y)[..|x + y| - 1] == x + y[..|y| - 1];
      SurvivingConcat(x, y[..|y| - 1], gone);
    }
  }

  lemma {:induction false} SurvivingTwice(refusals: seq<Refusal>, gone: set<string>, more: set<string>)
    ensures Surviving(Surviving(refusals, gone), more) == Surviving(refusals, gone + more)
  {
    if refusals != [] {
      var init, r := refusals[..|refusals| - 1], refusals[|refusals| - 1];
      SurvivingTwice(init, gone, more);
      if Stays(r, gone) {
        SurvivingConcat(Surviving(init, gone), [r], more);
        assert Surviving([r], more) == if Stays(r, more) then [r] else [];
      } else {
        assert Surviving(init, gone) + [] == Surviving(init, gone);
      }
    }
  }

  /** Dropping more can only shorten, and keeps the list exactly when nothing more is hit. */
  lemma {:induction false} SurvivingShrinks(refusals: seq<Refusal>, gone: set<string>, more: set<string>)
    requires gone <= more
    ensures |Surviving(refusals, more)| <= |Surviving(refusals, gone)|
    ensures |Surviving(refusals, more)| == |Surviving(refusals, gone)| ==>
        Surviving(refusals, more) == Surviving(refusals, gone)
    ensures Surviving(refusals, more) == Surviving(refusals, gone) <==>
            forall r :: r in refusals && Stays(r, gone) ==> Stays(r, more)
  {
    if refusals != [] {
      var init, last := refusals[..|refusals| - 1], refusals[|refusals| - 1];
      SurvivingShrinks(init, gone, more);
      assert refusals == init + [last];
    }
  }

  /** No refusal of a formula names a step that the two others define and it does not. */
  ghost predicate CrossFree(refusals: seq<Refusal>, own: set<string>, x: set<string>, y: set<string>) {
    forall r :: r in refusals && r.step.Some? ==> r.step.value in own || r.step.value !in x || r.step.value !in y
  }

  lemma CrossFreeIsSame(refusals: seq<Refusal>, own: set<string>, x: set<string>, y: set<string>)
    ensures CrossFree(refusals, own, x, y) <==>
            forall r :: r in refusals && Stays(r, own * (x + y)) ==> Stays(r, own * (x + y) + x * y)
  {
  }

  /** The refusals of the two ways of laying three formulas over one another. */
  lemma RefusalsOfThree(ra: seq<Refusal>, rb: seq<Refusal>, a: set<string>, b: set<string>, c: set<string>)
    ensures var left := Surviving(Surviving(ra, a * b) + rb, (a + b) * c);
            var right := Surviving(ra, a * (b + c)) + Surviving(rb, b * c);
            left == right <==> CrossFree(ra, a, b, c) && CrossFree(rb, b, a, c)
  {
    SurvivingConcat(Surviving(ra, a * b), rb, (a + b) * c);
    SurvivingTwice(ra, a * b, (a + b) * c);
    assert a * b + (a + b) * c == a * (b + c) + b * c;
    SurvivingShrinks(ra, a * (b + c), a * (b + c) + b * c);
    CrossFreeIsSame(ra, a, b, c);
    SurvivingShrinks(rb, b * c, (a + b) * c);
    assert CrossFree(rb, b, a, c) <==> forall r :: r in rb && Stays(r, b * c) ==> Stays(r, (a + b) * c);
    var x, y := Surviving(ra, a * (b + c) + b * c), Surviving(rb, (a + b) * c);
    var u, v := Surviving(ra, a * (b + c)), Surviving(rb, b * c);
    if x + y == u + v {
      assert |x| + |y| == |u| + |v|;
    }
  }

  lemma MergeIsAssociative<V>(x: map<string, V>, y: map<string, V>, z: map<string, V>)
    ensures (x + y) + z == x + (y + z)
  {
  }

  lemma RawOfThree(a: Walked, b: Walked, c: Walked)
    requires PlaceAll(a.raw.steps, PlaceAll(b.raw.steps, c.raw.steps)) ==
        PlaceAll(PlaceAll(a.raw.steps, b.raw.steps), c.raw.steps)
    ensures Laid(Laid(a, b), c).raw == Laid(a, Laid(b, c)).raw
  {
    MergeIsAssociative(a.raw.vars, b.raw.vars, c.raw.vars);
  }

  lemma ListsOfThree(a: Walked, b: Walked, c: Walked)
    ensures Laid(Laid(a, b), c).violations == Laid(a, Laid(b, c)).violations
    ensures Laid(Laid(a, b), c).ignored == Laid(a, Laid(b, c)).ignored
  {
    assert a.violations + b.violations + c.violations == a.violations + (b.violations + c.violations);
    assert a.ignored + b.ignored + c.ignored == a.ignored + (b.ignored + c.ignored);
  }

  lemma LaidRefusals(p: Walked, c: Walked, gone: set<string>)
    requires ReplacedIds(p.raw.steps, c.raw.steps) == gone
    ensures Laid(p, c).refusals == Surviving(p.refusals, gone) + c.refusals
    ensures Laid(p, c).raw.steps == PlaceAll(p.raw.steps, c.raw.steps)
  {
  }

  lemma ThreeWays(a: Walked, b: Walked, c: Walked, ab: Walked, bc: Walked, x: set<string>, y: set<string>,
                  z: set<string>)
    requires ab == Laid(a, b) && bc == Laid(b, c)
    requires ReplacedIds(a.raw.steps, b.raw.steps) == x * y && ReplacedIds(b.raw.steps, c.raw.steps) == y * z
    requires ReplacedIds(PlaceAll(a.raw.steps, b.raw.steps), c.raw.steps) == (x + y) * z
    requires ReplacedIds(a.raw.steps, PlaceAll(b.raw.steps, c.raw.steps)) == x * (y + z)
    ensures Laid(ab, c).refusals == Laid(a, bc).refusals <==>
        CrossFree(a.refusals, x, y, z) && CrossFree(b.refusals, y, x, z)
  {
    LaidRefusals(a, b, x * y);
    LaidRefusals(b, c, y * z);
    LaidRefusals(ab, c, (x + y) * z);
    LaidRefusals(a, bc, x * (y + z));
    RefusalsOfThree(a.refusals, b.refusals, x, y, z);
    TwoLists(Surviving(ab.refusals, (x + y) * z), Surviving(a.refusals, x * (y + z)), Surviving(b.refusals, y * z),
        c.refusals);
  }

  lemma TwoLists<T>(left: seq<T>, x: seq<T>, y: seq<T>, z: seq<T>)
    ensures left + z == x + (y + z) <==> left == x + y
  {
    assert x + (y + z) == (x + y) + z;
    SameSuffix(left, x + y, z);
  }

  /** Over formulas with unique step ids, laying over is associative exactly when no refusal names
      a step that its own formula lacks and both others define. */
  lemma OverlayIsAssociative(a: Walked, b: Walked, c: Walked)
    requires UniqueIds(a.raw.steps) && UniqueIds(b.raw.steps) && UniqueIds(c.raw.steps)
    ensures Laid(Laid(a, b), c) == Laid(a, Laid(b, c)) <==>
            && CrossFree(a.refusals, IdsOf(a.raw.steps), IdsOf(b.raw.steps), IdsOf(c.raw.steps))
            && CrossFree(b.refusals, IdsOf(b.raw.steps), IdsOf(a.raw.steps), IdsOf(c.raw.steps))
  {
    var left, right := Laid(Laid(a, b), c), Laid(a, Laid(b, c));
    var x, y, z := IdsOf(a.raw.steps), IdsOf(b.raw.steps), IdsOf(c.raw.steps);
    assert left.refusals == right.refusals <==> CrossFree(a.refusals, x, y, z) && CrossFree(b.refusals, y, x, z) by {
      StepsOfThree(a.raw.steps, b.raw.steps, c.raw.steps);
      ThreeWays(a, b, c, Laid(a, b), Laid(b, c), x, y, z);
    }
    assert left.raw == right.raw by {
      PlaceAllAssociative(a.raw.steps, b.raw.steps, c.raw.steps);
      RawOfThree(a, b, c);
    }
    ListsOfThree(a, b, c);
  }

  lemma StepsOfThree(a: seq<Step>, b: seq<Step>, c: seq<Step>)
    requires UniqueIds(a) && UniqueIds(b) && UniqueIds(c)
    ensures PlaceAll(a, PlaceAll(b, c)) == PlaceAll(PlaceAll(a, b), c)
    ensures ReplacedIds(a, b) == IdsOf(a) * IdsOf(b) && ReplacedIds(b, c) == IdsOf(b) * IdsOf(c)
    ensures ReplacedIds(PlaceAll(a, b), c) == (IdsOf(a) + IdsOf(b)) * IdsOf(c)
    ensures ReplacedIds(a, PlaceAll(b, c)) == IdsOf(a) * (IdsOf(b) + IdsOf(c))
  {
    PlaceAllAssociative(a, b, c);
    PlaceAllIds(a, b);
    PlaceAllIds(b, c);
    ReplacedAreCommon(a, b);
    ReplacedAreCommon(b, c);
    ReplacedAreCommon(PlaceAll(a, b), c);
    ReplacedAreCommon(a, PlaceAll(b, c));
  }

  lemma SameSuffix<T>(x: seq<T>, y: seq<T>, z: seq<T>)
    ensures x + z == y + z <==> x == y
  {
    if x + z == y + z {
      assert x == (x + z)[..|x + z| - |z|] == (y + z)[..|y + z| - |z|] == y;
    }
  }

  /** Laying over drops exactly the parent's refusals of steps both sides define. */
  lemma LaidKeeps(u: Walked, w: Walked, r: Refusal)
    requires UniqueIds(w.raw.steps)
    ensures r in Laid(u, w).refusals <==>
            r in w.refusals ||
            (r in u.refusals && !(r.step.Some? && r.step.value in IdsOf(u.raw.steps) &&
                r.step.value in IdsOf(w.raw.steps)))
  {
    ReplacedAreCommon(u.raw.steps, w.raw.steps);
    SurvivingMembers(u.refusals, ReplacedIds(u.raw.steps, w.raw.steps), r);
  }

  /** The condition fails where the first formula refuses a nested or a template step and both others
      define a step of that id: laid over one by one they lose the refusal, laid over together the
      last two keep it. */
  lemma OverlayOrderMatters(a: Walked, b: Walked, c: Walked, r: Refusal)
    requires UniqueIds(a.raw.steps) && UniqueIds(b.raw.steps) && UniqueIds(c.raw.steps)
    requires r in a.refusals && r !in b.refusals && r !in c.refusals && r.step.Some?
    requires r.step.value !in IdsOf(a.raw.steps) && r.step.value in IdsOf(b.raw.steps) &&
        r.step.value in IdsOf(c.raw.steps)
    ensures r !in Laid(Laid(a, b), c).refusals && r in Laid(a, Laid(b, c)).refusals
  {
    LaidRefusals(a, b, ReplacedIds(a.raw.steps, b.raw.steps));
    LaidRefusals(b, c, ReplacedIds(b.raw.steps, c.raw.steps));
    PlaceAllIds(a.raw.steps, b.raw.steps);
    PlaceAllIds(b.raw.steps, c.raw.steps);
    LaidKeeps(a, b, r);
    LaidKeeps(Laid(a, b), c, r);
    LaidKeeps(b, c, r);
    LaidKeeps(a, Laid(b, c), r);
  }

  /** One such triple. */
  lemma OverlayOrderMattersSomewhere(s: Step, base: Walked) returns (a: Walked, b: Walked, c: Walked)
    requires s.id.Some?
    ensures Laid(Laid(a, b), c) != Laid(a, Laid(b, c))
  {
    var r := Refusal("a nested step", s.id);
    a := base.(refusals := [r], raw := base.raw.(steps := []));
    b := base.(refusals := [], raw := base.raw.(steps := [s]));
    c := b;
    assert s in b.raw.steps;
    OverlayOrderMatters(a, b, c, r);
  }
}
