/** Resolving `extends`: the recursive chain with its path of names being visited, when it
    succeeds, and what the merged formula is. */
module Extends {
  import opened Wrappers
  import opened NeedsGraph
  import opened Formula
  import opened Overlay

  datatype ChainError = ExtendsCycle(visiting: seq<string>, parent: string) | NoSuchParent(parent: string)

  function Taken(me: Walked): Walked {
    me.(raw := me.raw.(parents := []))
  }

  ghost function Unvisited(lib: Library, visiting: seq<string>): set<string> {
    lib.Keys - Elements(visiting)
  }

  lemma VisitShrinks(lib: Library, visiting: seq<string>, parent: string)
    requires parent in lib && parent !in visiting
    ensures Unvisited(lib, visiting + [parent]) < Unvisited(lib, visiting)
  {
    ElementsAppend(visiting, parent);
    assert parent in Unvisited(lib, visiting);
  }

  function LaidOver(acc: Option<Walked>, w: Walked): Walked {
    if acc.None? then w else Laid(acc.value, w)
  }

  /** The formula with everything it extends merged in, deepest ancestor first. */
  function ChainOf(lib: Library, me: Walked, visiting: seq<string>): Result<Walked, ChainError>
    decreases Unvisited(lib, visiting), |me.raw.parents| + 1
  {
    if me.raw.parents == [] then Ok(me)
    else match ParentsOf(lib, me.raw.parents, visiting, None)
      case Err(e) => Err(e)
      case Ok(acc) => Ok(LaidOver(acc, Taken(me)))
  }

  function ParentsOf(lib: Library, parents: seq<string>, visiting: seq<string>, acc: Option<Walked>)
    : Result<Option<Walked>, ChainError>
    decreases Unvisited(lib, visiting), |parents|
  {
    if parents == [] then Ok(acc)
    else
      var parent := parents[0];
      if parent in visiting then Err(ExtendsCycle(visiting, parent))
      else if parent !in lib then Err(NoSuchParent(parent))
      else
        VisitShrinks(lib, visiting, parent);
        match ChainOf(lib, lib[parent], visiting + [parent])
        case Err(e) => Err(e)
        case Ok(w) => ParentsOf(lib, parents[1..], visiting, Some(LaidOver(acc, w)))
  }

  /** The resolution that runs, with its shared list of names being visited. */
  class Resolver {
    const lib: Library
    var visiting: seq<string>

    constructor (lib: Library, visiting: seq<string>)
      ensures this.lib == lib && this.visiting == visiting
    {
      this.lib, this.visiting := lib, visiting;
    }

    method Chain(me: Walked) returns (r: Result<Walked, ChainError>)
      modifies this
      ensures r == ChainOf(lib, me, old(visiting))
      ensures r.Ok? ==> visiting == old(visiting)
      decreases Unvisited(lib, visiting)
    {
      if me.raw.parents == [] {
        return Ok(me);
      }
      var parents, acc: Option<Walked> := me.raw.parents, None;
      for i := 0 to |parents|
        invariant visiting == old(visiting)
        invariant ParentsOf(lib, parents, visiting, None) == ParentsOf(lib, parents[i..], visiting, acc)
      {
        var parent := parents[i];
        assert parents[i..][1..] == parents[i + 1..];
        if parent in visiting {
          return Err(ExtendsCycle(visiting, parent));
        }
        if parent !in lib {
          return Err(NoSuchParent(parent));
        }
        VisitShrinks(lib, visiting, parent);
        visiting := visiting + [parent];
        var walked := Chain(lib[parent]);
        if walked.Err? {
          return Err(walked.error);
        }
        visiting := visiting[..|visiting| - 1];
        var laid := walked.value;
        if acc.Some? {
          laid := LayOver(acc.value, walked.value);
        }
        acc := Some(laid);
      }
      if acc.None? {
        return Ok(Taken(me));
      }
      var merged := LayOver(acc.value, Taken(me));
      return Ok(merged);
    }
  }

  // ---- when resolution succeeds ------------------------------------------

  ghost function ExtendsGraph(lib: Library): Graph {
    map n | n in lib :: set p | p in lib[n].raw.parents
  }

  /** Everything the name extends, directly or not, exists, and none of it comes round to itself. */
  ghost predicate Resolves(lib: Library, name: string) {
    && !ReachesCycle(ExtendsGraph(lib), name)
    && forall v :: Reaches(ExtendsGraph(lib), name, v) ==> v in lib
  }

  lemma LassoFromHead(g: Graph, p: seq<Id>)
    requires |p| > 0 && IsLasso(g, p[0], p)
    ensures |p| >= 2 && Edge(g, p[0], p[1]) && ReachesCycle(g, p[1])
  {
    assert Hop(g, p, 0);
    PathTail(g, p, 1);
    var q := p[1..];
    var i :| 0 <= i < |p| - 1 && p[i] == p[|p| - 1];
    if i >= 1 {
      assert q[i - 1] == q[|q| - 1];
      assert IsLasso(g, p[1], q);
    } else {
      PathSnoc(g, q, p[1]);
      var r := q + [p[1]];
      assert r[0] == r[|r| - 1] && IsLasso(g, p[1], r);
    }
  }

  lemma LassoBehindEdge(g: Graph, u: Id, v: Id)
    requires Edge(g, u, v) && ReachesCycle(g, v)
    ensures ReachesCycle(g, u)
  {
    var p :| IsLasso(g, v, p);
    var i :| 0 <= i < |p| - 1 && p[i] == p[|p| - 1];
    PathJoin(g, [u], p);
    var q := [u] + p;
    assert q[i + 1] == q[|q| - 1];
    assert IsLasso(g, u, q);
  }

  lemma ReachesStep(g: Graph, u: Id, v: Id)
    requires Reaches(g, u, v) && u != v
    ensures exists w :: Edge(g, u, w) && Reaches(g, w, v)
  {
    var p :| IsPath(g, p) && p[0] == u && p[|p| - 1] == v;
    assert Hop(g, p, 0);
    PathTail(g, p, 1);
    assert IsPath(g, p[1..]) && p[1..][0] == p[1] && p[1..][|p[1..]| - 1] == v;
  }

  lemma ResolvesByParents(lib: Library, name: string)
    requires name in lib
    ensures Resolves(lib, name) <==> forall p :: p in lib[name].raw.parents ==> Resolves(lib, p)
  {
    var g := ExtendsGraph(lib);
    forall p
      ensures p in lib[name].raw.parents <==> Edge(g, name, p)
    {
    }
    if Resolves(lib, name) {
      forall p | p in lib[name].raw.parents
        ensures Resolves(lib, p)
      {
        if ReachesCycle(g, p) {
          LassoBehindEdge(g, name, p);
        }
        forall v | Reaches(g, p, v)
          ensures Reaches(g, name, v)
        {
          EdgeReaches(g, name, p);
          ReachesTransitive(g, name, p, v);
        }
      }
    }
    if forall p :: p in lib[name].raw.parents ==> Resolves(lib, p) {
      if l :| IsLasso(g, name, l) {
        LassoFromHead(g, l);
      }
      forall v | Reaches(g, name, v)
        ensures v in lib
      {
        if v != name {
          ReachesStep(g, name, v);
        }
      }
    }
  }

  lemma {:induction false} ParentsSucceed(lib: Library, parents: seq<string>, visiting: seq<string>,
                                          acc: Option<Walked>)
    requires ParentsOf(lib, parents, visiting, acc).Ok?
    ensures forall p :: p in parents ==> Resolves(lib, p)
    decreases Unvisited(lib, visiting), |parents|
  {
    if parents != [] {
      var parent := parents[0];
      VisitShrinks(lib, visiting, parent);
      var me := lib[parent];
      if me.raw.parents != [] {
        ParentsSucceed(lib, me.raw.parents, visiting + [parent], None);
      }
      ResolvesByParents(lib, parent);
      var w := ChainOf(lib, me, visiting + [parent]).value;
      ParentsSucceed(lib, parents[1..], visiting, Some(LaidOver(acc, w)));
    }
  }

  /** The names being visited lead, each extending the next, to whatever extends `parents`. */
  ghost predicate Trail(lib: Library, visiting: seq<string>, parents: seq<string>) {
    visiting != [] ==>
      && IsPath(ExtendsGraph(lib), visiting)
      && forall p :: p in parents ==> Edge(ExtendsGraph(lib), visiting[|visiting| - 1], p)
  }

  lemma {:induction false} ParentsFail(lib: Library, parents: seq<string>, visiting: seq<string>, acc: Option<Walked>)
    requires ParentsOf(lib, parents, visiting, acc).Err? && Trail(lib, visiting, parents)
    ensures exists p :: p in parents && !Resolves(lib, p)
    decreases Unvisited(lib, visiting), |parents|
  {
    var g, parent := ExtendsGraph(lib), parents[0];
    assert parent in parents && forall p :: p in parents[1..] ==> p in parents;
    if parent in visiting {
      var k :| 0 <= k < |visiting| && visiting[k] == parent;
      PathClosesCycle(g, visiting, k);
      var cycle := visiting[k..] + [parent];
      assert cycle[0] == cycle[|cycle| - 1] && IsLasso(g, parent, cycle);
    } else if parent !in lib {
      assert IsPath(g, [parent]) && [parent][0] == parent;
      assert Reaches(g, parent, parent);
    } else {
      VisitShrinks(lib, visiting, parent);
      var me := lib[parent];
      match ChainOf(lib, me, visiting + [parent])
      case Err(_) =>
        if visiting != [] {
          PathSnoc(g, visiting, parent);
        }
        ParentsFail(lib, me.raw.parents, visiting + [parent], None);
        ResolvesByParents(lib, parent);
      case Ok(w) =>
        ParentsFail(lib, parents[1..], visiting, Some(LaidOver(acc, w)));
        var p :| p in parents[1..] && !Resolves(lib, p);
        assert p in parents;
    }
  }

  /** Resolution succeeds exactly when everything the formula extends, directly or not, exists and
      none of it extends itself in the end: it stops on every library, a reachable cycle always
      fails, and nothing else does but a missing parent. */
  lemma ResolutionIsExact(lib: Library, me: Walked)
    ensures ChainOf(lib, me, []).Ok? <==> forall p :: p in me.raw.parents ==> Resolves(lib, p)
  {
    if me.raw.parents != [] {
      if ChainOf(lib, me, []).Ok? {
        ParentsSucceed(lib, me.raw.parents, [], None);
      } else {
        ParentsFail(lib, me.raw.parents, [], None);
      }
    }
  }

  /** The same for a library formula resolved under its own name, as expansion does it. */
  lemma NamedResolutionIsExact(lib: Library, name: string)
    requires name in lib
    ensures ChainOf(lib, lib[name], [name]).Ok? <==> Resolves(lib, name)
  {
    var parents := lib[name].raw.parents;
    if parents != [] {
      if ChainOf(lib, lib[name], [name]).Ok? {
        ParentsSucceed(lib, parents, [name], None);
      } else {
        assert Trail(lib, [name], parents);
        ParentsFail(lib, parents, [name], None);
      }
    }
    ResolvesByParents(lib, name);
  }

  /** The error names a real fault: a formula extended, directly or not, that does not exist; or a path of
      formulas, each extending the next, that leads from a parent to a formula extending one already on
      it. */
  ghost predicate RealFault(lib: Library, parents: seq<string>, e: ChainError) {
    var g := ExtendsGraph(lib);
    match e
    case NoSuchParent(p) => p !in lib && exists q :: q in parents && Reaches(g, q, p)
    case ExtendsCycle(path, p) =>
      p in path && IsPath(g, path) && path[0] in parents && Edge(g, path[|path| - 1], p)
  }

  lemma {:induction false} ErrorIsReal(lib: Library, parents: seq<string>, visiting: seq<string>, acc: Option<Walked>,
                                       from: seq<string>)
    requires ParentsOf(lib, parents, visiting, acc).Err? && Trail(lib, visiting, parents)
    requires if visiting == [] then forall p :: p in parents ==> p in from else visiting[0] in from
    ensures RealFault(lib, from, ParentsOf(lib, parents, visiting, acc).error)
    decreases Unvisited(lib, visiting), |parents|
  {
    var g, parent := ExtendsGraph(lib), parents[0];
    assert parent in parents && forall p :: p in parents[1..] ==> p in parents;
    if parent in visiting {
    } else if parent !in lib {
      MissingIsReached(lib, visiting, parent, from);
    } else {
      VisitShrinks(lib, visiting, parent);
      var me := lib[parent];
      match ChainOf(lib, me, visiting + [parent])
      case Err(_) =>
        if visiting != [] {
          PathSnoc(g, visiting, parent);
        }
        ErrorIsReal(lib, me.raw.parents, visiting + [parent], None, from);
      case Ok(w) =>
        ErrorIsReal(lib, parents[1..], visiting, Some(LaidOver(acc, w)), from);
    }
  }

  lemma MissingIsReached(lib: Library, visiting: seq<string>, parent: string, from: seq<string>)
    requires visiting != [] ==> IsPath(ExtendsGraph(lib), visiting) && visiting[0] in from
    requires visiting != [] ==> Edge(ExtendsGraph(lib), visiting[|visiting| - 1], parent)
    requires visiting == [] ==> parent in from
    ensures exists q :: q in from && Reaches(ExtendsGraph(lib), q, parent)
  {
    var g := ExtendsGraph(lib);
    if visiting == [] {
      assert IsPath(g, [parent]) && [parent][0] == parent;
      assert Reaches(g, parent, parent);
    } else {
      PathSnoc(g, visiting, parent);
      var p := visiting + [parent];
      assert p[0] == visiting[0] && p[|p| - 1] == parent && Reaches(g, visiting[0], parent);
    }
  }

  /** So when resolution fails, it says why. */
  lemma FailureIsReal(lib: Library, me: Walked)
    requires ChainOf(lib, me, []).Err?
    ensures RealFault(lib, me.raw.parents, ChainOf(lib, me, []).error)
  {
    ErrorIsReal(lib, me.raw.parents, [], None, me.raw.parents);
  }

  // ---- what resolution yields --------------------------------------------

  /** How a chain is laid together: a formula, or one pile of formulas over another. */
  datatype Layers = Own(formula: Walked) | Over(lower: Layers, upper: Layers)

  function LayersOf(lib: Library, me: Walked, visiting: seq<string>): Layers
    decreases Unvisited(lib, visiting), |me.raw.parents| + 1
  {
    match ParentLayers(lib, me.raw.parents, visiting, None)
    case None => Own(Taken(me))
    case Some(lower) => Over(lower, Own(Taken(me)))
  }

  function ParentLayers(lib: Library, parents: seq<string>, visiting: seq<string>, acc: Option<Layers>): Option<Layers>
    decreases Unvisited(lib, visiting), |parents|
  {
    if parents == [] || parents[0] in visiting || parents[0] !in lib then acc
    else
      VisitShrinks(lib, visiting, parents[0]);
      var mine := LayersOf(lib, lib[parents[0]], visiting + [parents[0]]);
      ParentLayers(lib, parents[1..], visiting, Some(if acc.None? then mine else Over(acc.value, mine)))
  }

  function Folded(t: Layers): Walked {
    match t
    case Own(w) => w
    case Over(lower, upper) => Laid(Folded(lower), Folded(upper))
  }

  /** The formulas in the order they are laid down. */
  function Lineage(t: Layers): (r: seq<Walked>)
    ensures |r| > 0
  {
    match t
    case Own(w) => [w]
    case Over(lower, upper) => Lineage(lower) + Lineage(upper)
  }

  function LineageOf(lib: Library, me: Walked): seq<Walked> {
    Lineage(LayersOf(lib, me, []))
  }

  /** The recursive resolution lays the formulas together as their layers say. */
  lemma {:induction false} ChainIsFolded(lib: Library, me: Walked, visiting: seq<string>)
    requires ChainOf(lib, me, visiting).Ok?
    ensures ChainOf(lib, me, visiting).value == Folded(LayersOf(lib, me, visiting))
    decreases Unvisited(lib, visiting), |me.raw.parents| + 1
  {
    if me.raw.parents == [] {
      assert Taken(me) == me;
    } else {
      ParentsAreFolded(lib, me.raw.parents, visiting, None, None);
    }
  }

  ghost predicate FoldsTo(t: Option<Layers>, w: Option<Walked>) {
    if t.None? then w.None? else w == Some(Folded(t.value))
  }

  lemma {:induction false} ParentsAreFolded(lib: Library, parents: seq<string>, visiting: seq<string>,
                                            acc: Option<Walked>, layers: Option<Layers>)
    requires ParentsOf(lib, parents, visiting, acc).Ok? && FoldsTo(layers, acc)
    ensures FoldsTo(ParentLayers(lib, parents, visiting, layers), ParentsOf(lib, parents, visiting, acc).value)
    decreases Unvisited(lib, visiting), |parents|
  {
    if parents != [] {
      var up := visiting + [parents[0]];
      VisitShrinks(lib, visiting, parents[0]);
      ChainIsFolded(lib, lib[parents[0]], up);
      var mine := LayersOf(lib, lib[parents[0]], up);
      ParentsAreFolded(lib, parents[1..], visiting, Some(LaidOver(acc, Folded(mine))),
                       Some(if layers.None? then mine else Over(layers.value, mine)));
    }
  }

  function AllSteps(lineage: seq<Walked>): seq<Step> {
    if lineage == [] then [] else AllSteps(lineage[..|lineage| - 1]) + lineage[|lineage| - 1].raw.steps
  }

  function AllVars(lineage: seq<Walked>): map<string, Option<string>> {
    if lineage == [] then map[] else AllVars(lineage[..|lineage| - 1]) + lineage[|lineage| - 1].raw.vars
  }

  ghost predicate Distinct(lineage: seq<Walked>) {
    forall i :: 0 <= i < |lineage| ==> UniqueIds(lineage[i].raw.steps)
  }

  /** A refusal that names a step names one of its own formula's, or one that nobody defines. */
  ghost predicate Owned(lineage: seq<Walked>) {
    forall i, j, r :: 0 <= i < |lineage| && 0 <= j < |lineage| && r in lineage[i].refusals && r.step.Some? ==>
      r.step.value in IdsOf(lineage[i].raw.steps) || r.step.value !in IdsOf(lineage[j].raw.steps)
  }

  ghost predicate MergeOf(lineage: seq<Walked>, w: Walked) {
    w.raw.steps == PlaceAll([], AllSteps(lineage)) && w.raw.vars == AllVars(lineage)
  }

  lemma LineageInit(x: seq<Walked>, y: seq<Walked>)
    requires y != []
    ensures (x + y)[..|x + y| - 1] == x + y[..|y| - 1] && (x + y)[|x + y| - 1] == y[|y| - 1]
  {
  }

  lemma JoinAssociates<T>(a: seq<T>, b: seq<T>, c: seq<T>)
    ensures (a + b) + c == a + (b + c)
  {
  }

  lemma {:induction false} StepsConcat(x: seq<Walked>, y: seq<Walked>)
    ensures AllSteps(x + y) == AllSteps(x) + AllSteps(y)
    decreases |y|
  {
    if y == [] {
      assert x + y == x;
    } else {
      LineageInit(x, y);
      StepsConcat(x, y[..|y| - 1]);
      JoinAssociates(AllSteps(x), AllSteps(y[..|y| - 1]), y[|y| - 1].raw.steps);
    }
  }

  lemma {:induction false} VarsConcat(x: seq<Walked>, y: seq<Walked>)
    ensures AllVars(x + y) == AllVars(x) + AllVars(y)
    decreases |y|
  {
    if y == [] {
      assert x + y == x;
    } else {
      LineageInit(x, y);
      VarsConcat(x, y[..|y| - 1]);
      MergeIsAssociative(AllVars(x), AllVars(y[..|y| - 1]), y[|y| - 1].raw.vars);
    }
  }

  lemma {:induction false} IdsOfLineage(x: seq<Walked>, id: string)
    ensures id in IdsOf(AllSteps(x)) <==> exists i :: 0 <= i < |x| && id in IdsOf(x[i].raw.steps)
  {
    if x != [] {
      var init, last := x[..|x| - 1], x[|x| - 1];
      IdsOfLineage(init, id);
      assert IdsOf(AllSteps(x)) == IdsOf(AllSteps(init)) + IdsOf(last.raw.steps);
      assert forall i :: 0 <= i < |init| ==> init[i] == x[i];
    }
  }

  /** Two merged stretches laid over one another are the merged whole. */
  lemma LaidMerges(x: seq<Walked>, y: seq<Walked>, u: Walked, w: Walked)
    requires MergeOf(x, u) && MergeOf(y, w)
    ensures MergeOf(x + y, Laid(u, w))
  {
    StepsConcat(x, y);
    VarsConcat(x, y);
    PlaceAllAssociative(u.raw.steps, [], AllSteps(y));
    PlaceAllConcat([], AllSteps(x), AllSteps(y));
  }

  lemma DistinctParts(x: seq<Walked>, y: seq<Walked>)
    requires Distinct(x + y)
    ensures Distinct(x) && Distinct(y)
  {
    assert forall i :: 0 <= i < |x| ==> (x + y)[i] == x[i];
    assert forall i :: 0 <= i < |y| ==> (x + y)[|x| + i] == y[i];
  }

  lemma OwnMerges(w: Walked)
    requires UniqueIds(w.raw.steps)
    ensures MergeOf([w], w)
  {
    UniqueStays(w.raw.steps);
    assert AllSteps([w]) == w.raw.steps;
    assert AllVars([w]) == w.raw.vars;
  }

  /** However the layers are nested, they merge as their formulas would one after the other. */
  lemma {:induction false} LayersMerge(t: Layers)
    requires Distinct(Lineage(t))
    ensures MergeOf(Lineage(t), Folded(t))
  {
    match t
    case Own(w) =>
      assert UniqueIds(Lineage(t)[0].raw.steps);
      OwnMerges(w);
    case Over(lower, upper) =>
      DistinctParts(Lineage(lower), Lineage(upper));
      LayersMerge(lower);
      LayersMerge(upper);
      LaidMerges(Lineage(lower), Lineage(upper), Folded(lower), Folded(upper));
  }

  ghost predicate LastDefines(lineage: seq<Walked>, i: int, v: string) {
    && 0 <= i < |lineage| && v in lineage[i].raw.vars
    && forall j :: i < j < |lineage| ==> v !in lineage[j].raw.vars
  }

  ghost predicate LastValue(lineage: seq<Walked>, v: string, value: Option<string>) {
    exists i :: LastDefines(lineage, i, v) && lineage[i].raw.vars[v] == value
  }

  lemma {:induction false} VarsLeft(lineage: seq<Walked>, v: string)
    ensures v in AllVars(lineage) <==> exists i :: LastDefines(lineage, i, v)
    ensures v in AllVars(lineage) ==> LastValue(lineage, v, AllVars(lineage)[v])
  {
    if lineage != [] {
      var init, last := lineage[..|lineage| - 1], lineage[|lineage| - 1];
      VarsLeft(init, v);
      if v in last.raw.vars {
        assert LastDefines(lineage, |init|, v);
      } else {
        forall i
          ensures LastDefines(lineage, i, v) <==> LastDefines(init, i, v)
        {
        }
        if v in AllVars(lineage) {
          var i :| LastDefines(init, i, v) && init[i].raw.vars[v] == AllVars(init)[v];
          assert LastDefines(lineage, i, v);
        }
      }
    }
  }

  // ---- the fields that are one value, and the lists ----------------------

  /** `o` is the last one present of `all`, if any is. */
  ghost predicate LastPresent<T>(all: seq<Option<T>>, o: Option<T>) {
    match o
    case None => forall i :: 0 <= i < |all| ==> all[i] == None
    case Some(_) => exists i :: 0 <= i < |all| && all[i] == o && NonePast(all, i)
  }

  ghost predicate NonePast<T>(all: seq<Option<T>>, i: int)
    requires 0 <= i
  {
    forall j :: i < j < |all| ==> all[j] == None
  }

  function Descriptions(lineage: seq<Walked>): seq<Option<string>> {
    seq(|lineage|, i requires 0 <= i < |lineage| => lineage[i].raw.description)
  }

  function Compilers(lineage: seq<Walked>): seq<Option<string>> {
    seq(|lineage|, i requires 0 <= i < |lineage| => lineage[i].raw.formulaCompiler)
  }

  function Contracts(lineage: seq<Walked>): seq<Option<string>> {
    seq(|lineage|, i requires 0 <= i < |lineage| => lineage[i].raw.contract)
  }

  function Kinds(lineage: seq<Walked>): seq<Option<string>> {
    seq(|lineage|, i requires 0 <= i < |lineage| => lineage[i].raw.kind)
  }

  /** A formula without template steps has no template. */
  function TemplateOf(w: Walked): Option<seq<Step>> {
    if w.raw.template == [] then None else Some(w.raw.template)
  }

  function Templates(lineage: seq<Walked>): seq<Option<seq<Step>>> {
    seq(|lineage|, i requires 0 <= i < |lineage| => TemplateOf(lineage[i]))
  }

  function AllViolations(lineage: seq<Walked>): seq<string> {
    if lineage == [] then [] else AllViolations(lineage[..|lineage| - 1]) + lineage[|lineage| - 1].violations
  }

  function AllIgnored(lineage: seq<Walked>): seq<string> {
    if lineage == [] then [] else AllIgnored(lineage[..|lineage| - 1]) + lineage[|lineage| - 1].ignored
  }

  /** Description, compiler, contract, kind and template are each the last one present along the
      lineage; violations and ignored keys are everybody's, in the order they are laid down. */
  ghost predicate CarriesLast(lineage: seq<Walked>, w: Walked) {
    && LastPresent(Descriptions(lineage), w.raw.description)
    && LastPresent(Compilers(lineage), w.raw.formulaCompiler)
    && LastPresent(Contracts(lineage), w.raw.contract)
    && LastPresent(Kinds(lineage), w.raw.kind)
    && LastPresent(Templates(lineage), TemplateOf(w))
    && w.violations == AllViolations(lineage) && w.ignored == AllIgnored(lineage)
  }

  lemma LastPresentConcat<T(!new)>(x: seq<Option<T>>, y: seq<Option<T>>, a: Option<T>, b: Option<T>)
    requires LastPresent(x, a) && LastPresent(y, b)
    ensures LastPresent(x + y, if b.Some? then b else a)
  {
    var all := x + y;
    if b.Some? {
      var i :| 0 <= i < |y| && y[i] == b && NonePast(y, i);
      assert all[|x| + i] == b && NonePast(all, |x| + i);
    } else if a.Some? {
      var i :| 0 <= i < |x| && x[i] == a && NonePast(x, i);
      assert all[i] == a && NonePast(all, i);
    }
  }

  lemma {:induction false} ListsConcat(x: seq<Walked>, y: seq<Walked>)
    ensures AllViolations(x + y) == AllViolations(x) + AllViolations(y)
    ensures AllIgnored(x + y) == AllIgnored(x) + AllIgnored(y)
    decreases |y|
  {
    if y == [] {
      assert x + y == x;
    } else {
      LineageInit(x, y);
      ListsConcat(x, y[..|y| - 1]);
      JoinAssociates(AllViolations(x), AllViolations(y[..|y| - 1]), y[|y| - 1].violations);
      JoinAssociates(AllIgnored(x), AllIgnored(y[..|y| - 1]), y[|y| - 1].ignored);
    }
  }

  lemma FieldsConcat(x: seq<Walked>, y: seq<Walked>)
    ensures Descriptions(x + y) == Descriptions(x) + Descriptions(y)
    ensures Compilers(x + y) == Compilers(x) + Compilers(y)
    ensures Contracts(x + y) == Contracts(x) + Contracts(y)
    ensures Kinds(x + y) == Kinds(x) + Kinds(y)
    ensures Templates(x + y) == Templates(x) + Templates(y)
  {
  }

  lemma LaidCarriesLast(x: seq<Walked>, y: seq<Walked>, u: Walked, w: Walked)
    requires CarriesLast(x, u) && CarriesLast(y, w)
    ensures CarriesLast(x + y, Laid(u, w))
  {
    FieldsConcat(x, y);
    ListsConcat(x, y);
    LastPresentConcat(Descriptions(x), Descriptions(y), u.raw.description, w.raw.description);
    LastPresentConcat(Compilers(x), Compilers(y), u.raw.formulaCompiler, w.raw.formulaCompiler);
    LastPresentConcat(Contracts(x), Contracts(y), u.raw.contract, w.raw.contract);
    LastPresentConcat(Kinds(x), Kinds(y), u.raw.kind, w.raw.kind);
    LastPresentConcat(Templates(x), Templates(y), TemplateOf(u), TemplateOf(w));
  }

  lemma OwnCarriesLast(w: Walked)
    ensures CarriesLast([w], w)
  {
    assert forall x: Option<string> :: x.Some? ==> NonePast([x], 0);
    assert TemplateOf(w).Some? ==> NonePast([TemplateOf(w)], 0);
    assert Descriptions([w]) == [w.raw.description] && Compilers([w]) == [w.raw.formulaCompiler];
    assert Contracts([w]) == [w.raw.contract] && Kinds([w]) == [w.raw.kind] && Templates([w]) == [TemplateOf(w)];
    assert [w][..0] == [] && AllViolations([w]) == [] + w.violations && AllIgnored([w]) == [] + w.ignored;
    assert [] + w.violations == w.violations && [] + w.ignored == w.ignored;
  }

  lemma {:induction false} LayersCarryLast(t: Layers)
    ensures CarriesLast(Lineage(t), Folded(t))
    ensures Folded(t).raw.name == Lineage(t)[|Lineage(t)| - 1].raw.name
  {
    match t
    case Own(w) => OwnCarriesLast(w);
    case Over(lower, upper) =>
      LayersCarryLast(lower);
      LayersCarryLast(upper);
      LaidCarriesLast(Lineage(lower), Lineage(upper), Folded(lower), Folded(upper));
  }

  lemma EndsWithOwn(lib: Library, me: Walked, visiting: seq<string>)
    ensures var x := Lineage(LayersOf(lib, me, visiting)); x[|x| - 1] == Taken(me)
  {
  }

  /** The closed form of a resolved formula along its lineage: one step per id, at the position of its
      first definer and with the body of its last; every variable as last defined; description,
      compiler, contract, kind and template each the last one present; its own name, and nothing left
      to extend; everybody's violations and ignored keys. */
  lemma ResolvedIsClosedForm(lib: Library, me: Walked) returns (first: seq<nat>, last: seq<nat>)
    requires ChainOf(lib, me, []).Ok? && Distinct(LineageOf(lib, me))
    ensures var lineage, w := LineageOf(lib, me), ChainOf(lib, me, []).value;
            && Describes(AllSteps(lineage), first, last, w.raw.steps)
            && (forall v :: v in w.raw.vars <==> exists i :: LastDefines(lineage, i, v))
            && (forall v :: v in w.raw.vars ==> LastValue(lineage, v, w.raw.vars[v]))
            && CarriesLast(lineage, w)
            && w.raw.name == me.raw.name && w.raw.parents == []
  {
    var lineage := LineageOf(lib, me);
    ChainIsFolded(lib, me, []);
    LayersMerge(LayersOf(lib, me, []));
    LayersCarryLast(LayersOf(lib, me, []));
    EndsWithOwn(lib, me, []);
    first, last := MergedIsClosedForm(AllSteps(lineage));
    forall v
      ensures v in AllVars(lineage) <==> exists i :: LastDefines(lineage, i, v)
      ensures v in AllVars(lineage) ==> LastValue(lineage, v, AllVars(lineage)[v])
    {
      VarsLeft(lineage, v);
    }
  }

  // ---- the lineage -------------------------------------------------------

  /** The lineages of the named formulas, one after the other. */
  ghost function LineagesOf(lib: Library, names: seq<string>): seq<Walked> {
    if names == [] then []
    else LineagesOf(lib, names[..|names| - 1]) +
         if names[|names| - 1] in lib then LineageOf(lib, lib[names[|names| - 1]]) else []
  }

  /** Where resolution succeeds, which names are being visited makes no difference to the layers. */
  lemma {:induction false} LayersIgnoreVisiting(lib: Library, me: Walked, x: seq<string>, y: seq<string>)
    requires ChainOf(lib, me, x).Ok? && ChainOf(lib, me, y).Ok?
    ensures LayersOf(lib, me, x) == LayersOf(lib, me, y)
    decreases Unvisited(lib, x), |me.raw.parents| + 1
  {
    if me.raw.parents != [] {
      ParentLayersIgnoreVisiting(lib, me.raw.parents, x, y, None, None, None);
    }
  }

  lemma {:induction false} ParentLayersIgnoreVisiting(lib: Library, parents: seq<string>, x: seq<string>,
                                                      y: seq<string>, a: Option<Walked>, b: Option<Walked>,
                                                      layers: Option<Layers>)
    requires ParentsOf(lib, parents, x, a).Ok? && ParentsOf(lib, parents, y, b).Ok?
    ensures ParentLayers(lib, parents, x, layers) == ParentLayers(lib, parents, y, layers)
    decreases Unvisited(lib, x), |parents|
  {
    if parents != [] {
      var p := parents[0];
      VisitShrinks(lib, x, p);
      VisitShrinks(lib, y, p);
      LayersIgnoreVisiting(lib, lib[p], x + [p], y + [p]);
      var mine := LayersOf(lib, lib[p], x + [p]);
      ParentLayersIgnoreVisiting(lib, parents[1..], x, y,
          Some(LaidOver(a, ChainOf(lib, lib[p], x + [p]).value)),
          Some(LaidOver(b, ChainOf(lib, lib[p], y + [p]).value)),
          Some(if layers.None? then mine else Over(layers.value, mine)));
    }
  }

  ghost function LineageOfAll(t: Option<Layers>): seq<Walked> {
    if t.None? then [] else Lineage(t.value)
  }

  lemma LineagesSplit(lib: Library, names: seq<string>)
    requires names != []
    ensures LineagesOf(lib, names) ==
            (if names[0] in lib then LineageOf(lib, lib[names[0]]) else []) + LineagesOf(lib, names[1..])
    decreases |names|
  {
    var init := names[..|names| - 1];
    if init == [] {
      assert names[1..] == [];
    } else {
      LineagesSplit(lib, init);
      assert init[0] == names[0] && names[1..][..|names[1..]| - 1] == init[1..];
      assert names[1..][|names[1..]| - 1] == names[|names| - 1];
      JoinAssociates(if names[0] in lib then LineageOf(lib, lib[names[0]]) else [], LineagesOf(lib, init[1..]),
          if names[|names| - 1] in lib then LineageOf(lib, lib[names[|names| - 1]]) else []);
    }
  }

  /** A parent resolved on the way resolves on its own. */
  lemma ParentResolvesAlone(lib: Library, parent: string, visiting: seq<string>)
    requires parent in lib && ChainOf(lib, lib[parent], visiting).Ok?
    ensures ChainOf(lib, lib[parent], []).Ok?
  {
    if lib[parent].raw.parents != [] {
      ParentsSucceed(lib, lib[parent].raw.parents, visiting, None);
    }
    ResolutionIsExact(lib, lib[parent]);
  }

  lemma {:induction false} ParentLineages(lib: Library, parents: seq<string>, visiting: seq<string>,
                                          acc: Option<Walked>, layers: Option<Layers>)
    requires ParentsOf(lib, parents, visiting, acc).Ok?
    ensures LineageOfAll(ParentLayers(lib, parents, visiting, layers)) ==
            LineageOfAll(layers) + LineagesOf(lib, parents)
    decreases |parents|
  {
    if parents != [] {
      var p, up := parents[0], visiting + [parents[0]];
      var w := ChainOf(lib, lib[p], up).value;
      VisitShrinks(lib, visiting, p);
      ParentResolvesAlone(lib, p, up);
      LayersIgnoreVisiting(lib, lib[p], up, []);
      var mine := LayersOf(lib, lib[p], up);
      ParentLineages(lib, parents[1..], visiting, Some(LaidOver(acc, w)),
                     Some(if layers.None? then mine else Over(layers.value, mine)));
      LineagesSplit(lib, parents);
      JoinAssociates(LineageOfAll(layers), Lineage(mine), LineagesOf(lib, parents[1..]));
    }
  }

  /** In which order formulas are laid down: the whole lineage of each parent, parent by parent as
      listed, and the formula itself last, over all of them; a formula extended along two ways is laid
      down twice. */
  lemma LineageIsParentsThenOwn(lib: Library, me: Walked)
    requires ChainOf(lib, me, []).Ok?
    ensures LineageOf(lib, me) == LineagesOf(lib, me.raw.parents) + [Taken(me)]
  {
    var all := LineagesOf(lib, me.raw.parents);
    if me.raw.parents == [] {
      assert ParentLayers(lib, me.raw.parents, [], None) == None;
    } else {
      ParentLineages(lib, me.raw.parents, [], None, None);
      assert [] + all == all;
    }
    var t := ParentLayers(lib, me.raw.parents, [], None);
    assert LineageOfAll(t) == all;
    if t.None? {
      assert [] + [Taken(me)] == [Taken(me)];
    } else {
      assert LayersOf(lib, me, []) == Over(t.value, Own(Taken(me)));
      assert Lineage(Own(Taken(me))) == [Taken(me)];
    }
  }

  // ---- which refusals are left -------------------------------------------

  /** Formulas `mid` up to `hi` of the lineage were laid over formulas `lo` up to `mid`. */
  datatype Merge = Merge(lo: nat, mid: nat, hi: nat)

  /** Every merge of the layers, their lineage standing from `lo` on. */
  ghost function Merges(t: Layers, lo: nat): set<Merge> {
    match t
    case Own(_) => {}
    case Over(lower, upper) =>
      var mid := lo + |Lineage(lower)|;
      Merges(lower, lo) + Merges(upper, mid) + {Merge(lo, mid, mid + |Lineage(upper)|)}
  }

  ghost predicate Within(merges: set<Merge>, lo: nat, hi: nat) {
    forall m :: m in merges ==> lo <= m.lo < m.mid < m.hi <= hi
  }

  lemma {:induction false} MergesWithin(t: Layers, lo: nat)
    ensures Within(Merges(t, lo), lo, lo + |Lineage(t)|)
  {
    if t.Over? {
      MergesWithin(t.lower, lo);
      MergesWithin(t.upper, lo + |Lineage(t.lower)|);
    }
  }

  ghost predicate DefinedIn(lineage: seq<Walked>, lo: nat, hi: nat, id: string) {
    exists j :: lo <= j < hi && j < |lineage| && id in IdsOf(lineage[j].raw.steps)
  }

  /** The merge replaces the step that `r` names: both sides define it. */
  ghost predicate Replaces(lineage: seq<Walked>, m: Merge, r: Refusal) {
    r.step.Some? && DefinedIn(lineage, m.lo, m.mid, r.step.value) && DefinedIn(lineage, m.mid, m.hi, r.step.value)
  }

  /** Formula `i` refuses `r`, and no merge that lays others over formula `i` replaces what `r` names. */
  ghost predicate Survives(lineage: seq<Walked>, merges: set<Merge>, i: int, r: Refusal) {
    && 0 <= i < |lineage| && r in lineage[i].refusals
    && forall m :: m in merges && m.lo <= i < m.mid ==> !Replaces(lineage, m, r)
  }

  /** The ids a merged stretch of the lineage defines. */
  lemma StretchIds(lineage: seq<Walked>, lo: nat, hi: nat, w: Walked, id: string)
    requires lo <= hi <= |lineage| && MergeOf(lineage[lo..hi], w)
    ensures id in IdsOf(w.raw.steps) <==> DefinedIn(lineage, lo, hi, id)
  {
    var x := lineage[lo..hi];
    PlaceAllIds([], AllSteps(x));
    assert IdsOf([]) == {};
    IdsOfLineage(x, id);
    if DefinedIn(lineage, lo, hi, id) {
      var j :| lo <= j < hi && j < |lineage| && id in IdsOf(lineage[j].raw.steps);
      assert x[j - lo] == lineage[j];
    }
    assert forall i :: 0 <= i < |x| ==> x[i] == lineage[lo + i];
  }

  lemma SurvivesBelow(lineage: seq<Walked>, x: set<Merge>, y: set<Merge>, top: Merge, i: int, r: Refusal)
    requires Within(x, top.lo, top.mid) && Within(y, top.mid, top.hi) && top.lo <= i < top.mid
    ensures Survives(lineage, x + y + {top}, i, r) <==> Survives(lineage, x, i, r) && !Replaces(lineage, top, r)
  {
    var all := x + y + {top};
    assert forall m :: m in all && m.lo <= i < m.mid ==> m in x || m == top;
    assert top in all && forall m :: m in x ==> m in all;
  }

  lemma SurvivesAbove(lineage: seq<Walked>, x: set<Merge>, y: set<Merge>, top: Merge, i: int, r: Refusal)
    requires Within(x, top.lo, top.mid) && Within(y, top.mid, top.hi) && top.lo < top.mid <= i < top.hi
    ensures Survives(lineage, x + y + {top}, i, r) <==> Survives(lineage, y, i, r)
  {
    var all := x + y + {top};
    assert forall m :: m in all && m.lo <= i < m.mid ==> m in y;
    assert forall m :: m in y ==> m in all;
  }

  ghost predicate SurvivesIn(lineage: seq<Walked>, merges: set<Merge>, lo: nat, hi: nat, r: Refusal) {
    exists i :: lo <= i < hi && Survives(lineage, merges, i, r)
  }

  lemma SurvivesInTop(lineage: seq<Walked>, x: set<Merge>, y: set<Merge>, top: Merge, r: Refusal)
    requires top.lo < top.mid < top.hi && Within(x, top.lo, top.mid) && Within(y, top.mid, top.hi)
    ensures SurvivesIn(lineage, x + y + {top}, top.lo, top.hi, r) <==>
            (SurvivesIn(lineage, x, top.lo, top.mid, r) && !Replaces(lineage, top, r)) ||
            SurvivesIn(lineage, y, top.mid, top.hi, r)
  {
    forall i | top.lo <= i < top.hi
      ensures Survives(lineage, x + y + {top}, i, r) <==>
              if i < top.mid then Survives(lineage, x, i, r) && !Replaces(lineage, top, r)
              else Survives(lineage, y, i, r)
    {
      if i < top.mid {
        SurvivesBelow(lineage, x, y, top, i, r);
      } else {
        SurvivesAbove(lineage, x, y, top, i, r);
      }
    }
  }

  lemma StretchSplit(lineage: seq<Walked>, lo: nat, x: seq<Walked>, y: seq<Walked>)
    requires lo + |x| + |y| <= |lineage| && lineage[lo..lo + |x| + |y|] == x + y
    ensures lineage[lo..lo + |x|] == x && lineage[lo + |x|..lo + |x| + |y|] == y
  {
    assert x == (x + y)[..|x|] && y == (x + y)[|x|..];
  }

  /** Layers standing in a lineage keep a refusal exactly when one of their formulas makes it and it
      survives their merges. */
  lemma {:induction false} LayersKeep(t: Layers, lineage: seq<Walked>, lo: nat, hi: nat, r: Refusal)
    requires hi == lo + |Lineage(t)| <= |lineage| && lineage[lo..hi] == Lineage(t) && Distinct(Lineage(t))
    ensures (r in Folded(t).refusals) == SurvivesIn(lineage, Merges(t, lo), lo, hi, r)
  {
    if t.Own? {
      OwnKeeps(t.formula, lineage, lo, r);
    } else {
      var x, y := Lineage(t.lower), Lineage(t.upper);
      var mid := lo + |x|;
      StretchSplit(lineage, lo, x, y);
      DistinctParts(x, y);
      LayersKeep(t.lower, lineage, lo, mid, r);
      LayersKeep(t.upper, lineage, mid, hi, r);
      OverKeeps(t, lineage, Merge(lo, mid, hi), r);
    }
  }

  lemma OwnKeeps(w: Walked, lineage: seq<Walked>, lo: nat, r: Refusal)
    requires lo < |lineage| && lineage[lo..lo + 1] == [w]
    ensures (r in w.refusals) == SurvivesIn(lineage, {}, lo, lo + 1, r)
  {
    assert lineage[lo] == lineage[lo..lo + 1][0] == w;
    assert r in w.refusals <==> Survives(lineage, {}, lo, r);
  }

  lemma OverKeeps(t: Layers, lineage: seq<Walked>, top: Merge, r: Refusal)
    requires t.Over? && top.mid == top.lo + |Lineage(t.lower)| && top.hi == top.mid + |Lineage(t.upper)| <= |lineage|
    requires lineage[top.lo..top.mid] == Lineage(t.lower) && lineage[top.mid..top.hi] == Lineage(t.upper)
    requires Distinct(Lineage(t.lower)) && Distinct(Lineage(t.upper))
    requires (r in Folded(t.lower).refusals) == SurvivesIn(lineage, Merges(t.lower, top.lo), top.lo, top.mid, r)
    requires (r in Folded(t.upper).refusals) == SurvivesIn(lineage, Merges(t.upper, top.mid), top.mid, top.hi, r)
    ensures (r in Folded(t).refusals) == SurvivesIn(lineage, Merges(t, top.lo), top.lo, top.hi, r)
  {
    MergesWithin(t.lower, top.lo);
    MergesWithin(t.upper, top.mid);
    SurvivesInTop(lineage, Merges(t.lower, top.lo), Merges(t.upper, top.mid), top, r);
    LaidReplaces(t.lower, t.upper, lineage, top, r);
    MergesOver(t, top);
  }

  lemma MergesOver(t: Layers, top: Merge)
    requires t.Over? && top.mid == top.lo + |Lineage(t.lower)| && top.hi == top.mid + |Lineage(t.upper)|
    ensures Merges(t, top.lo) == Merges(t.lower, top.lo) + Merges(t.upper, top.mid) + {top}
  {
    assert top == Merge(top.lo, top.mid, top.hi);
  }

  lemma LaidReplaces(lower: Layers, upper: Layers, lineage: seq<Walked>, top: Merge, r: Refusal)
    requires top.lo <= top.mid <= top.hi <= |lineage|
    requires lineage[top.lo..top.mid] == Lineage(lower) && lineage[top.mid..top.hi] == Lineage(upper)
    requires Distinct(Lineage(lower)) && Distinct(Lineage(upper))
    ensures r in Laid(Folded(lower), Folded(upper)).refusals <==>
            r in Folded(upper).refusals || (r in Folded(lower).refusals && !Replaces(lineage, top, r))
  {
    LayersMerge(lower);
    LayersMerge(upper);
    PlaceAllIds([], AllSteps(Lineage(upper)));
    LaidKeeps(Folded(lower), Folded(upper), r);
    if r.step.Some? {
      StretchIds(lineage, top.lo, top.mid, Folded(lower), r.step.value);
      StretchIds(lineage, top.mid, top.hi, Folded(upper), r.step.value);
    }
  }

  /** The exact survival rule: a refusal is left exactly when some formula of the chain makes it and
      no merge that lays others over that formula replaces the step it names, that is, finds the
      step on both its sides. */
  lemma RefusalsLeftExactly(lib: Library, me: Walked, r: Refusal)
    requires ChainOf(lib, me, []).Ok? && Distinct(LineageOf(lib, me))
    ensures r in ChainOf(lib, me, []).value.refusals <==>
            SurvivesIn(LineageOf(lib, me), Merges(LayersOf(lib, me, []), 0), 0, |LineageOf(lib, me)|, r)
  {
    var lineage := LineageOf(lib, me);
    assert lineage[0..|lineage|] == lineage;
    ChainIsFolded(lib, me, []);
    LayersKeep(LayersOf(lib, me, []), lineage, 0, |lineage|, r);
  }

  // ---- refusals of a formula's own steps ---------------------------------

  ghost predicate Separates(m: Merge, i: int, j: int) {
    m.lo <= i < m.mid <= j < m.hi
  }

  /** Any two formulas of a lineage meet in a merge, the later one on top. */
  lemma {:induction false} MergesSeparate(t: Layers, lo: nat, i: nat, j: nat)
    requires lo <= i < j < lo + |Lineage(t)|
    ensures exists m :: m in Merges(t, lo) && Separates(m, i, j)
  {
    var mid := lo + |Lineage(t.lower)|;
    if j < mid {
      MergesSeparate(t.lower, lo, i, j);
      var m :| m in Merges(t.lower, lo) && Separates(m, i, j);
      assert m in Merges(t, lo);
    } else if i >= mid {
      MergesSeparate(t.upper, mid, i, j);
      var m :| m in Merges(t.upper, mid) && Separates(m, i, j);
      assert m in Merges(t, lo);
    } else {
      var m := Merge(lo, mid, mid + |Lineage(t.upper)|);
      assert m in Merges(t, lo) && Separates(m, i, j);
    }
  }

  /** Some formula of the chain refuses `r`, and no later one defines the step it names. */
  ghost predicate Outlives(lineage: seq<Walked>, i: int, r: Refusal) {
    && 0 <= i < |lineage| && r in lineage[i].refusals
    && forall j :: i < j < |lineage| ==> Stays(r, IdsOf(lineage[j].raw.steps))
  }

  lemma SurvivesIsOutlives(t: Layers, i: int, r: Refusal)
    requires Owned(Lineage(t))
    ensures Survives(Lineage(t), Merges(t, 0), i, r) <==> Outlives(Lineage(t), i, r)
  {
    var lineage, merges := Lineage(t), Merges(t, 0);
    MergesWithin(t, 0);
    if Survives(lineage, merges, i, r) {
      forall j | i < j < |lineage|
        ensures Stays(r, IdsOf(lineage[j].raw.steps))
      {
        MergesSeparate(t, 0, i, j);
        var m :| m in merges && Separates(m, i, j);
        assert !Replaces(lineage, m, r);
      }
    }
  }

  /** Where refusals name their own formula's steps, they are left exactly when no later formula
      defines the step again. */
  lemma OwnedRefusalsLeft(lib: Library, me: Walked, r: Refusal)
    requires ChainOf(lib, me, []).Ok? && Distinct(LineageOf(lib, me)) && Owned(LineageOf(lib, me))
    ensures r in ChainOf(lib, me, []).value.refusals <==> exists i :: Outlives(LineageOf(lib, me), i, r)
  {
    var t := LayersOf(lib, me, []);
    RefusalsLeftExactly(lib, me, r);
    if i :| 0 <= i < |Lineage(t)| && Survives(Lineage(t), Merges(t, 0), i, r) {
      SurvivesIsOutlives(t, i, r);
    }
    if i :| Outlives(Lineage(t), i, r) {
      SurvivesIsOutlives(t, i, r);
      assert SurvivesIn(Lineage(t), Merges(t, 0), 0, |Lineage(t)|, r);
    }
  }

  // ---- a refusal lost though its step stays ------------------------------

  /** A formula `a` refuses its nested child `x`; `b` extends it and adds a step of that id, which
      the formula extending `b` replaces. The refusal goes with the replaced step, though the child
      it is about is still there. */
  lemma NestedRefusalIsLost(a: string, b: string, base: Walked, middle: Walked, top: Walked, outer: Step, child: Step,
                            r: Refusal)
    requires a != b && child in outer.children && child.id.Some? && r == Refusal(r.what, child.id)
    requires outer.id.Some? && outer.id != child.id
    requires base.raw.parents == [] && base.raw.steps == [outer] && base.refusals == [r]
    requires middle.raw.parents == [a] && |middle.raw.steps| == 1 && middle.raw.steps[0].id == child.id &&
        middle.refusals == []
    requires top.raw.parents == [b] && |top.raw.steps| == 1 && top.raw.steps[0].id == child.id && top.refusals == []
    ensures var w := ChainOf(map[a := base, b := middle], top, []);
            w.Ok? && r !in w.value.refusals && outer in w.value.raw.steps
  {
    var lib := map[a := base, b := middle];
    var lower := Laid(base, Taken(middle));
    ThreeLevels(lib, a, b, base, middle, top);
    var x1, x2 := middle.raw.steps[0], top.raw.steps[0];
    PlacedPair(outer, x1, x2);
    assert middle.raw.steps == [x1] && top.raw.steps == [x2];
    assert Laid(lower, Taken(top)).raw.steps[0] == outer;
    LaidKeeps(base, Taken(middle), r);
    LaidKeeps(lower, Taken(top), r);
    assert x1 in lower.raw.steps && x2 in top.raw.steps;
  }

  lemma ThreeLevels(lib: Library, a: string, b: string, base: Walked, middle: Walked, top: Walked)
    requires a != b && a in lib && b in lib && lib[a] == base && lib[b] == middle
    requires base.raw.parents == [] && middle.raw.parents == [a] && top.raw.parents == [b]
    ensures ChainOf(lib, top, []) == Ok(Laid(Laid(base, Taken(middle)), Taken(top)))
  {
    var lower := Laid(base, Taken(middle));
    assert [] + [b] == [b] && a !in [b];
    assert ParentsOf(lib, [a], [b], None) == ParentsOf(lib, [a][1..], [b], Some(base)) == Ok(Some(base));
    assert ChainOf(lib, middle, [b]) == Ok(lower);
    assert ParentsOf(lib, [b], [], None) == ParentsOf(lib, [b][1..], [], Some(lower)) == Ok(Some(lower));
  }

  lemma PlacedPair(outer: Step, x1: Step, x2: Step)
    requires x1.id.Some? && x1.id == x2.id && outer.id != x1.id
    ensures PlaceAll([outer], [x1]) == [outer, x1] && PlaceAll([outer, x1], [x2]) == [outer, x2]
  {
    PositionIsNone([outer], x1.id);
    assert [x1][..0] == [] && [x2][..0] == [];
    PositionIs([outer, x1], x2.id, 1);
  }
}
