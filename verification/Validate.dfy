/** The step-list rules of formula validation: S4 (ids), S6 (needs) and S7 (acyclic needs),
    the last by a three-state depth-first search. */
module Validate {
  import opened Wrappers
  import opened NeedsGraph
  import opened Ordering
  import Ids

  datatype RawStep = RawStep(id: Option<string>, needs: seq<string>)

  datatype Violation =
    | MissingId(index: nat)
    | DuplicateId(id: Id)
    | SelfNeed(index: nat)
    | UnknownNeed(index: nat, need: Id)
    | DuplicateNeed(index: nat, need: Id)
    | DependencyCycle(path: seq<Id>)

  /** Adjacency as `check_cycles` collects it: a later step overrides an earlier one of the same id. */
  function EdgesOf(steps: seq<RawStep>): map<Id, seq<Id>> {
    if steps == [] then map[]
    else
      var last := steps[|steps| - 1];
      var rest := EdgesOf(steps[..|steps| - 1]);
      if last.id.Some? then rest[last.id.value := last.needs] else rest
  }

  /** The same relation as a graph; an edge to an id no step declares is no edge. */
  ghost function NeedsOf(edges: map<Id, seq<Id>>): Graph {
    map k | k in edges :: set v | v in edges[k] && v in edges
  }

  /** Step `i` declares `u`, and no later step does. */
  ghost predicate LastOf(raw: seq<RawStep>, i: int, u: string) {
    0 <= i < |raw| && raw[i].id == Some(u) && forall j :: i < j < |raw| ==> raw[j].id != Some(u)
  }

  /** The nodes of the map are the declared ids, each with the needs of the last step of that id. */
  lemma {:induction false} EdgesAreSteps(raw: seq<RawStep>, u: string)
    ensures u in EdgesOf(raw) <==> exists i :: 0 <= i < |raw| && raw[i].id == Some(u)
    ensures u in EdgesOf(raw) ==> exists i :: LastOf(raw, i, u) && raw[i].needs == EdgesOf(raw)[u]
    decreases |raw|
  {
    if raw != [] {
      var init, last := raw[..|raw| - 1], raw[|raw| - 1];
      EdgesAreSteps(init, u);
      if last.id == Some(u) {
        assert LastOf(raw, |init|, u);
      } else if u in EdgesOf(init) {
        var i :| LastOf(init, i, u) && init[i].needs == EdgesOf(init)[u];
        assert LastOf(raw, i, u) && raw[i] == init[i];
      }
      assert forall i :: 0 <= i < |init| ==> init[i] == raw[i];
    }
  }

  // ---- S7: the search ----------------------------------------------------

  datatype Mark = Unvisited | InStack | Done

  function Position(s: seq<Id>, x: Id): (r: Option<nat>)
    ensures r.Some? <==> x in s
    ensures r.Some? ==> r.value < |s| && s[r.value] == x
  {
    if s == [] then None
    else if s[0] == x then Some(0)
    else match Position(s[1..], x)
      case None => None
      case Some(k) => Some(k + 1)
  }

  function JoinWithCommas(s: seq<Id>): string {
    if s == [] then "" else if |s| == 1 then s[0] else s[0] + "," + JoinWithCommas(s[1..])
  }

  /** The key under which a cycle is reported once: its nodes, sorted and joined. */
  function Canonical(cycle: seq<Id>): string {
    if cycle == [] then "" else JoinWithCommas(Sorted(cycle[..|cycle| - 1]))
  }

  /** No two reported cycles share their canonical key. */
  ghost predicate ReportedOnce(cycles: seq<seq<Id>>) {
    forall i, j :: 0 <= i < j < |cycles| ==> Canonical(cycles[i]) != Canonical(cycles[j])
  }

  ghost predicate IsDone(state: map<Id, Mark>, k: Id) {
    k in state && state[k].Done?
  }

  ghost predicate AllDone(edges: map<Id, seq<Id>>, state: map<Id, Mark>) {
    forall k :: k in edges ==> IsDone(state, k)
  }

  ghost function Pending(state: map<Id, Mark>): set<Id> {
    set k | k in state && state[k].Unvisited?
  }

  /** The stack is a path, and holds exactly the nodes marked as being on it. */
  ghost predicate StackMatches(edges: map<Id, seq<Id>>, state: map<Id, Mark>, stack: seq<Id>) {
    && NoDuplicates(stack)
    && (forall k :: k in stack <==> k in state && state[k].InStack?)
    && (stack != [] ==> IsPath(NeedsOf(edges), stack))
  }

  /** A cycle that meets no node twice before it closes. */
  ghost predicate IsSimpleCycle(g: Graph, c: seq<Id>) {
    IsCycle(g, c) && NoDuplicates(c[..|c| - 1])
  }

  ghost predicate ReportsMatch(edges: map<Id, seq<Id>>, out: seq<seq<Id>>, reported: set<string>) {
    && (forall c :: c in out ==> IsSimpleCycle(NeedsOf(edges), c) && Canonical(c) in reported)
    && ReportedOnce(out)
    && (forall key :: key in reported ==> KeyOfSome(out, key))
  }

  ghost predicate KeyOfSome(cycles: seq<seq<Id>>, key: string) {
    exists c :: c in cycles && Canonical(c) == key
  }

  /** The edge closes a simple cycle that is reported, or whose key is a reported one's. */
  ghost predicate Closes(edges: map<Id, seq<Id>>, u: Id, v: Id, reported: set<string>) {
    exists c :: ClosedBy(edges, c, u, v) && Canonical(c) in reported
  }

  ghost predicate ClosedBy(edges: map<Id, seq<Id>>, c: seq<Id>, u: Id, v: Id) {
    IsSimpleCycle(NeedsOf(edges), c) && c[|c| - 2] == u && c[|c| - 1] == v
  }

  /** Finished nodes only lead to nodes finished before them, or round to where they came from. */
  ghost predicate Settled(edges: map<Id, seq<Id>>, state: map<Id, Mark>, rank: map<Id, nat>, clock: nat,
                          reported: set<string>)
  {
    && (forall k :: k in rank <==> IsDone(state, k))
    && (forall k :: k in rank ==> rank[k] < clock)
    && (forall u, v :: u in rank && u in edges && v in edges[u] && v in edges ==>
          (v in rank && rank[v] < rank[u]) || Closes(edges, u, v, reported))
  }

  /** The successor is finished, or the edge to it is accounted for. */
  ghost predicate Followed(edges: map<Id, seq<Id>>, state: map<Id, Mark>, reported: set<string>, u: Id, v: Id) {
    v in edges ==> IsDone(state, v) || Closes(edges, u, v, reported)
  }

  lemma PopStack(edges: map<Id, seq<Id>>, state: map<Id, Mark>, stack: seq<Id>)
    requires StackMatches(edges, state, stack) && stack != []
    ensures StackMatches(edges, state[stack[|stack| - 1] := Done], stack[..|stack| - 1])
  {
    var rest, node := stack[..|stack| - 1], stack[|stack| - 1];
    assert stack == rest + [node];
    NoDuplicatesInit(rest, node);
    forall k
      ensures k in rest <==> k in stack && k != node
    {
      assert k in stack <==> k in rest || k == node;
    }
    if rest != [] {
      PathInit(NeedsOf(edges), stack);
    }
  }

  lemma ReportsGrow(edges: map<Id, seq<Id>>, out: seq<seq<Id>>, reported: set<string>, cycle: seq<Id>)
    requires ReportsMatch(edges, out, reported)
    requires IsSimpleCycle(NeedsOf(edges), cycle) && Canonical(cycle) !in reported
    ensures ReportsMatch(edges, out + [cycle], reported + {Canonical(cycle)})
  {
    var more := out + [cycle];
    assert more[|out|] == cycle;
    forall key | key in reported + {Canonical(cycle)}
      ensures KeyOfSome(more, key)
    {
      if key in reported {
        var c :| c in out && Canonical(c) == key;
        assert c in more;
      }
    }
    forall i, j | 0 <= i < j < |more|
      ensures Canonical(more[i]) != Canonical(more[j])
    {
      if j == |out| {
        assert more[i] in out;
      }
    }
  }

  lemma SettledStays(edges: map<Id, seq<Id>>, state: map<Id, Mark>, rank: map<Id, nat>, clock: nat,
                     reported: set<string>, key: string)
    requires Settled(edges, state, rank, clock, reported)
    ensures Settled(edges, state, rank, clock, reported + {key})
  {
    forall u, v | Closes(edges, u, v, reported)
      ensures Closes(edges, u, v, reported + {key})
    {
    }
  }

  class CycleSearch {
    const edges: map<Id, seq<Id>>
    var state: map<Id, Mark>
    var stack: seq<Id>
    var reported: set<string>
    var out: seq<seq<Id>>
    // When each finished node was finished.
    ghost var rank: map<Id, nat>
    ghost var clock: nat

    constructor (edges: map<Id, seq<Id>>)
      ensures this.edges == edges && Valid() && stack == [] && out == []
      ensures Pending(state) == edges.Keys
    {
      this.edges := edges;
      state := map k | k in edges :: Unvisited;
      stack, reported, out := [], {}, [];
      rank, clock := map[], 0;
    }

    ghost predicate Valid()
      reads this
    {
      && state.Keys == edges.Keys
      && StackMatches(edges, state, stack)
      && ReportsMatch(edges, out, reported)
      && Settled(edges, state, rank, clock, reported)
    }

    /** Record the cycle that the edge from the top of the stack to `next` closes. */
    method Report(next: Id)
      requires Valid() && stack != [] && next in stack
      requires Edge(NeedsOf(edges), stack[|stack| - 1], next)
      modifies this`out, this`reported
      ensures Valid() && old(out) <= out && old(reported) <= reported
      ensures Closes(edges, stack[|stack| - 1], next, reported)
    {
      var found := Position(stack, next);
      var start := if found.Some? then found.value else 0;
      var cycle := stack[start..] + [next];
      PathClosesCycle(NeedsOf(edges), stack, start);
      assert cycle[..|cycle| - 1] == stack[start..];
      assert ClosedBy(edges, cycle, stack[|stack| - 1], next);
      var key := Canonical(cycle);
      if key !in reported {
        ReportsGrow(edges, out, reported, cycle);
        SettledStays(edges, state, rank, clock, reported, key);
        reported := reported + {key};
        out := out + [cycle];
      }
    }

    /** Put `node` on the recursion stack. */
    method Enter(node: Id)
      requires Valid() && node in Pending(state)
      requires stack != [] ==> Edge(NeedsOf(edges), stack[|stack| - 1], node)
      modifies this`state, this`stack
      ensures Valid() && stack == old(stack) + [node]
      ensures Pending(state) == old(Pending(state)) - {node}
      ensures forall k :: IsDone(state, k) <==> old(IsDone(state, k))
    {
      if stack != [] {
        PathSnoc(NeedsOf(edges), stack, node);
      }
      state := state[node := InStack];
      stack := stack + [node];
    }

    /** Take the top of the stack off, all its successors being finished or reported on. */
    method Leave(node: Id)
      requires Valid() && stack != [] && stack[|stack| - 1] == node && node in edges
      requires forall v :: v in edges[node] ==> Followed(edges, state, reported, node, v)
      modifies this`state, this`stack, this`rank, this`clock
      ensures Valid() && stack == old(stack)[..|old(stack)| - 1]
      ensures Pending(state) == old(Pending(state))
      ensures forall k :: IsDone(state, k) <==> old(IsDone(state, k)) || k == node
    {
      PopStack(edges, state, stack);
      stack, state := stack[..|stack| - 1], state[node := Done];
      rank, clock := rank[node := clock], clock + 1;
    }

    /** Follow one edge from the top of the stack. */
    method Follow(next: Id)
      requires Valid() && stack != []
      requires next in edges ==> Edge(NeedsOf(edges), stack[|stack| - 1], next)
      modifies this
      ensures Valid() && stack == old(stack) && old(out) <= out
      ensures Pending(state) <= old(Pending(state))
      ensures forall k :: old(IsDone(state, k)) ==> IsDone(state, k)
      ensures old(reported) <= reported && Followed(edges, state, reported, stack[|stack| - 1], next)
      decreases Pending(state), 1
    {
      if next in state {
        match state[next] {
          case InStack => Report(next);
          case Unvisited => Dfs(next);
          case Done =>
        }
      }
    }

    method Dfs(node: Id)
      requires Valid() && node in Pending(state)
      requires stack != [] ==> Edge(NeedsOf(edges), stack[|stack| - 1], node)
      modifies this
      ensures Valid() && stack == old(stack) && old(out) <= out && old(reported) <= reported
      ensures IsDone(state, node) && Pending(state) <= old(Pending(state)) - {node}
      ensures forall k :: old(IsDone(state, k)) ==> IsDone(state, k)
      decreases Pending(state), 0
    {
      Enter(node);
      FollowAll(node);
      assert stack[|stack| - 1] == node && stack[..|stack| - 1] == old(stack);
      Leave(node);
    }

    /** Follow every edge from the top of the stack, in order. */
    method FollowAll(node: Id)
      requires Valid() && stack != [] && stack[|stack| - 1] == node && node in edges
      modifies this
      ensures Valid() && stack == old(stack) && old(out) <= out
      ensures Pending(state) <= old(Pending(state))
      ensures forall k :: old(IsDone(state, k)) ==> IsDone(state, k)
      ensures old(reported) <= reported && forall v :: v in edges[node] ==> Followed(edges, state, reported, node, v)
      decreases Pending(state), 2
    {
      var i := 0;
      while i < |edges[node]|
        invariant 0 <= i <= |edges[node]|
        invariant Valid() && stack == old(stack) && old(out) <= out
        invariant Pending(state) <= old(Pending(state))
        invariant forall k :: old(IsDone(state, k)) ==> IsDone(state, k)
        invariant old(reported) <= reported
        invariant forall v :: v in edges[node][..i] ==> Followed(edges, state, reported, node, v)
      {
        assert edges[node][..i + 1] == edges[node][..i] + [edges[node][i]];
        Follow(edges[node][i]);
        i := i + 1;
      }
      assert edges[node][..i] == edges[node];
    }

    /** Search from every node not met yet, in order. */
    method Run()
      requires Valid() && stack == []
      modifies this
      ensures Valid() && AllDone(edges, state)
    {
      var nodes := edges.Keys;
      while nodes != {}
        invariant Valid() && stack == [] && nodes <= edges.Keys
        invariant forall k :: k in edges && k !in nodes ==> IsDone(state, k)
      {
        var node := TakeLeast(nodes);
        if state[node] == Unvisited {
          Dfs(node);
        } else {
          NotOnStack(state, stack, node);
        }
        nodes := nodes - {node};
      }
    }

    lemma NotOnStack(state: map<Id, Mark>, stack: seq<Id>, node: Id)
      requires stack == [] && StackMatches(edges, state, stack) && node in state && state[node] != Unvisited
      ensures IsDone(state, node)
    {
    }
  }

  /** Cycles over the same nodes share their canonical key. */
  lemma SameNodesSameKey(g: Graph, c: seq<Id>, d: seq<Id>)
    requires IsSimpleCycle(g, c) && IsSimpleCycle(g, d) && Elements(c) == Elements(d)
    ensures Canonical(c) == Canonical(d)
  {
    ClosedNodes(g, c);
    ClosedNodes(g, d);
    var s, t := c[..|c| - 1], d[..|d| - 1];
    forall x
      ensures x in s <==> x in t
    {
      assert x in c <==> x in Elements(c);
      assert x in d <==> x in Elements(d);
    }
    SameSetSameSorted(s, t);
  }

  lemma ClosedNodes(g: Graph, c: seq<Id>)
    requires IsCycle(g, c)
    ensures forall x :: x in c <==> x in c[..|c| - 1]
  {
    assert c == c[..|c| - 1] + [c[|c| - 1]];
    assert c[0] == c[..|c| - 1][0];
  }

  lemma ReportsDiffer(g: Graph, cycles: seq<seq<Id>>)
    requires ReportedOnce(cycles) && forall c :: c in cycles ==> IsSimpleCycle(g, c)
    ensures forall i, j :: 0 <= i < j < |cycles| ==> Elements(cycles[i]) != Elements(cycles[j])
  {
    forall i, j | 0 <= i < j < |cycles|
      ensures Elements(cycles[i]) != Elements(cycles[j])
    {
      if Elements(cycles[i]) == Elements(cycles[j]) {
        SameNodesSameKey(g, cycles[i], cycles[j]);
      }
    }
  }

  /** The hop at `i` of a walk closes a simple cycle with the key of a reported one. */
  ghost predicate HopReported(edges: map<Id, seq<Id>>, cycles: seq<seq<Id>>, p: seq<Id>, i: int) {
    0 <= i < |p| - 1 && exists c :: ClosedBy(edges, c, p[i], p[i + 1]) && KeyOfSome(cycles, Canonical(c))
  }

  ghost predicate SomeHopReported(edges: map<Id, seq<Id>>, cycles: seq<seq<Id>>, p: seq<Id>) {
    exists i :: HopReported(edges, cycles, p, i)
  }

  /** The edges that lead to nodes finished before. */
  ghost function Tame(edges: map<Id, seq<Id>>, rank: map<Id, nat>): Graph {
    map u | u in edges :: set v | v in NeedsOf(edges)[u] && u in rank && v in rank && rank[v] < rank[u]
  }

  lemma TameIsAcyclic(edges: map<Id, seq<Id>>, rank: map<Id, nat>)
    requires forall k :: k in edges ==> k in rank
    ensures Acyclic(Tame(edges, rank))
  {
    RankedIsAcyclic(Tame(edges, rank), rank);
  }

  lemma HopIsTame(edges: map<Id, seq<Id>>, state: map<Id, Mark>, cycles: seq<seq<Id>>, rank: map<Id, nat>, clock: nat,
                  reported: set<string>, p: seq<Id>, i: int)
    requires AllDone(edges, state) && Settled(edges, state, rank, clock, reported)
    requires ReportsMatch(edges, cycles, reported)
    requires 0 <= i < |p| - 1 && Hop(NeedsOf(edges), p, i) && !HopReported(edges, cycles, p, i)
    ensures Hop(Tame(edges, rank), p, i)
  {
    assert !Closes(edges, p[i], p[i + 1], reported);
  }

  /** No cycle goes unreported altogether: without the edges accounted for nothing goes round. */
  lemma CycleIsReported(edges: map<Id, seq<Id>>, state: map<Id, Mark>, cycles: seq<seq<Id>>, rank: map<Id, nat>,
                        clock: nat, reported: set<string>, p: seq<Id>)
    requires AllDone(edges, state) && Settled(edges, state, rank, clock, reported)
    requires ReportsMatch(edges, cycles, reported) && IsCycle(NeedsOf(edges), p)
    ensures SomeHopReported(edges, cycles, p)
  {
    if !SomeHopReported(edges, cycles, p) {
      forall i | 0 <= i < |p| - 1
        ensures Hop(Tame(edges, rank), p, i)
      {
        assert Hop(NeedsOf(edges), p, i);
        HopIsTame(edges, state, cycles, rank, clock, reported, p, i);
      }
      TameIsAcyclic(edges, rank);
      assert IsCycle(Tame(edges, rank), p);
    }
  }

  ghost predicate NoneUnreported(edges: map<Id, seq<Id>>, cycles: seq<seq<Id>>) {
    forall p {:trigger SomeHopReported(edges, cycles, p)} :: IsCycle(NeedsOf(edges), p) ==>
      SomeHopReported(edges, cycles, p)
  }

  /** What a finished search has reported. */
  lemma SearchIsComplete(edges: map<Id, seq<Id>>, state: map<Id, Mark>, cycles: seq<seq<Id>>, rank: map<Id, nat>,
                         clock: nat, reported: set<string>)
    requires AllDone(edges, state) && Settled(edges, state, rank, clock, reported)
    requires ReportsMatch(edges, cycles, reported)
    ensures NoneUnreported(edges, cycles)
  {
    forall p | IsCycle(NeedsOf(edges), p)
      ensures SomeHopReported(edges, cycles, p)
    {
      CycleIsReported(edges, state, cycles, rank, clock, reported, p);
    }
  }

  lemma ReportedMeansCyclic(edges: map<Id, seq<Id>>, cycles: seq<seq<Id>>)
    requires NoneUnreported(edges, cycles) && forall c :: c in cycles ==> IsSimpleCycle(NeedsOf(edges), c)
    ensures cycles == [] <==> Acyclic(NeedsOf(edges))
  {
    if cycles != [] {
      assert cycles[0] in cycles;
    } else {
      forall p
        ensures !IsCycle(NeedsOf(edges), p)
      {
        assert !SomeHopReported(edges, cycles, p);
      }
    }
  }

  /** S7 over any needs map: something is reported exactly when the graph has a cycle, every
      report is a simple closed walk of real edges, no two are over the same nodes, and every cycle
      has an edge that closes a simple cycle which is reported, or shares its key with one that is. */
  method CheckCycles(edges: map<Id, seq<Id>>) returns (cycles: seq<seq<Id>>)
    ensures cycles == [] <==> Acyclic(NeedsOf(edges))
    ensures forall c :: c in cycles ==> IsSimpleCycle(NeedsOf(edges), c)
    ensures forall i, j :: 0 <= i < j < |cycles| ==> Elements(cycles[i]) != Elements(cycles[j])
    ensures NoneUnreported(edges, cycles)
  {
    var search := new CycleSearch(edges);
    search.Run();
    cycles := search.out;
    FinishedReports(edges, search.state, cycles, search.rank, search.clock, search.reported);
  }

  lemma FinishedReports(edges: map<Id, seq<Id>>, state: map<Id, Mark>, cycles: seq<seq<Id>>, rank: map<Id, nat>,
                        clock: nat, reported: set<string>)
    requires AllDone(edges, state) && Settled(edges, state, rank, clock, reported)
    requires ReportsMatch(edges, cycles, reported)
    ensures cycles == [] <==> Acyclic(NeedsOf(edges))
    ensures forall c :: c in cycles ==> IsSimpleCycle(NeedsOf(edges), c)
    ensures forall i, j :: 0 <= i < j < |cycles| ==> Elements(cycles[i]) != Elements(cycles[j])
    ensures NoneUnreported(edges, cycles)
  {
    SearchIsComplete(edges, state, cycles, rank, clock, reported);
    ReportsDiffer(NeedsOf(edges), cycles);
    ReportedMeansCyclic(edges, cycles);
  }

  // ---- what a key stands for ---------------------------------------------

  ghost predicate CommaFree(s: seq<Id>) {
    forall i :: 0 <= i < |s| ==> ',' !in s[i]
  }

  lemma JoinedOnce(s: seq<Id>)
    requires |s| > 1 && CommaFree(s)
    ensures Ids.SplitOnce(JoinWithCommas(s), ',') == Some((s[0], JoinWithCommas(s[1..])))
  {
    Ids.SplitOnceExact(JoinWithCommas(s), ',', s[0], JoinWithCommas(s[1..]));
  }

  lemma JoinHoldsComma(s: seq<Id>)
    requires |s| > 1
    ensures ',' in JoinWithCommas(s)
  {
    assert JoinWithCommas(s)[|s[0]|] == ',';
  }

  lemma {:induction false} JoinIsInjective(s: seq<Id>, t: seq<Id>)
    requires s != [] && t != [] && CommaFree(s) && CommaFree(t) && JoinWithCommas(s) == JoinWithCommas(t)
    ensures s == t
    decreases |s|
  {
    if |s| > 1 && |t| > 1 {
      JoinedOnce(s);
      JoinedOnce(t);
      JoinIsInjective(s[1..], t[1..]);
      assert s == [s[0]] + s[1..] && t == [t[0]] + t[1..];
    } else if |s| > 1 {
      JoinHoldsComma(s);
    } else if |t| > 1 {
      JoinHoldsComma(t);
    }
  }

  /** Where no id holds a comma, a cycle's key stands for its nodes. */
  lemma KeyIsNodes(g: Graph, c: seq<Id>, d: seq<Id>)
    requires IsSimpleCycle(g, c) && IsSimpleCycle(g, d) && CommaFree(c) && CommaFree(d)
    ensures Canonical(c) == Canonical(d) <==> Elements(c) == Elements(d)
  {
    var s, t := c[..|c| - 1], d[..|d| - 1];
    ClosedNodes(g, c);
    ClosedNodes(g, d);
    SortedIsAscending(s);
    SortedIsAscending(t);
    assert s[0] in s && t[0] in t;
    SortedIsCommaFree(s);
    SortedIsCommaFree(t);
    if Canonical(c) == Canonical(d) {
      JoinIsInjective(Sorted(s), Sorted(t));
      assert forall x :: x in c <==> x in s;
      assert forall x :: x in d <==> x in t;
    } else if Elements(c) == Elements(d) {
      SameNodesSameKey(g, c, d);
    }
  }

  lemma SortedIsCommaFree(s: seq<Id>)
    requires NoDuplicates(s) && CommaFree(s)
    ensures CommaFree(Sorted(s)) && (s != [] ==> Sorted(s) != [])
  {
    SortedIsAscending(s);
    forall i | 0 <= i < |Sorted(s)|
      ensures ',' !in Sorted(s)[i]
    {
      assert Sorted(s)[i] in s;
    }
    assert s != [] ==> s[0] in s && s[0] in Sorted(s);
  }

  /** So then every cycle has an edge with both ends on one reported cycle. */
  lemma EveryCycleMeetsReport(edges: map<Id, seq<Id>>, cycles: seq<seq<Id>>, p: seq<Id>, i: int)
    requires forall k :: k in edges ==> ',' !in k
    requires (forall c :: c in cycles ==> IsSimpleCycle(NeedsOf(edges), c)) && HopReported(edges, cycles, p, i)
    ensures exists d :: d in cycles && p[i] in d && p[i + 1] in d
  {
    var g := NeedsOf(edges);
    var c :| ClosedBy(edges, c, p[i], p[i + 1]) && KeyOfSome(cycles, Canonical(c));
    var d :| d in cycles && Canonical(d) == Canonical(c);
    CycleIsCommaFree(edges, c);
    CycleIsCommaFree(edges, d);
    KeyIsNodes(g, c, d);
    assert p[i] in Elements(c) && p[i + 1] in Elements(c);
  }

  lemma CycleIsCommaFree(edges: map<Id, seq<Id>>, c: seq<Id>)
    requires (forall k :: k in edges ==> ',' !in k) && IsCycle(NeedsOf(edges), c)
    ensures CommaFree(c)
  {
    forall i | 0 <= i < |c|
      ensures ',' !in c[i]
    {
      assert i > 0 ==> Hop(NeedsOf(edges), c, i - 1);
      assert i == 0 ==> Hop(NeedsOf(edges), c, 0);
    }
  }

  /** A comma in an id can hide a cycle: an id that spells two others in order has, needing itself, the
      key of the two needing each other. */
  lemma CommaHidesCycle(a: Id, b: Id)
    requires Before(a, b) && a != b
    ensures var x := a + "," + b;
            var g := NeedsOf(map[a := [b], b := [a], x := [x]]);
            && IsSimpleCycle(g, [a, b, a]) && IsSimpleCycle(g, [x, x]) && x !in [a, b, a]
            && Canonical([a, b, a]) == Canonical([x, x])
  {
    var x := a + "," + b;
    var g := NeedsOf(map[a := [b], b := [a], x := [x]]);
    var two, one := [a, b, a], [x, x];
    assert |x| > |a| && |x| > |b|;
    assert Hop(g, two, 0) && Hop(g, two, 1) && Hop(g, one, 0);
    assert two[..|two| - 1] == [a, b] && one[..|one| - 1] == [x];
    assert [a, b][1..] == [b] && [b][1..] == [] && [x][1..] == [];
    assert Sorted([b]) == InsertSorted([], b) == [b];
    assert Sorted([a, b]) == InsertSorted([b], a) == [a, b];
    assert Sorted([x]) == InsertSorted([], x) == [x];
    assert JoinWithCommas([a, b]) == a + "," + JoinWithCommas([b]) == x;
  }

  // ---- S4, S6 and S7 together --------------------------------------------

  function Known(steps: seq<RawStep>): set<Id> {
    set i | 0 <= i < |steps| && steps[i].id.Some? :: steps[i].id.value
  }

  predicate HasRepeat(s: seq<string>, x: string) {
    exists i, j :: 0 <= i < j < |s| && s[i] == x && s[j] == x
  }

  ghost predicate SharedId(steps: seq<RawStep>, id: Id) {
    exists i, j :: 0 <= i < j < |steps| && steps[i].id == Some(id) && steps[j].id == Some(id)
  }

  ghost predicate StepGraphAcyclic(steps: seq<RawStep>) {
    Acyclic(NeedsOf(EdgesOf(steps)))
  }

  ghost predicate GoodNeeds(steps: seq<RawStep>, i: nat)
    requires i < |steps|
  {
    && NoDuplicates(steps[i].needs)
    && forall n :: n in steps[i].needs ==> Some(n) != steps[i].id && n in Known(steps)
  }

  /** What S4 and S6 ask of a step list. */
  ghost predicate ClosedUnderNeeds(steps: seq<RawStep>) {
    && (forall i :: 0 <= i < |steps| ==> steps[i].id.Some? && steps[i].id.value != "")
    && (forall i, j :: 0 <= i < j < |steps| ==> steps[i].id != steps[j].id)
    && (forall i :: 0 <= i < |steps| ==> GoodNeeds(steps, i))
  }

  /** What S4, S6 and S7 ask of a step list. */
  ghost predicate WellFormed(steps: seq<RawStep>) {
    ClosedUnderNeeds(steps) && StepGraphAcyclic(steps)
  }

  /** A violation names a fault the step list really has. */
  ghost predicate Justified(steps: seq<RawStep>, v: Violation) {
    match v
    case MissingId(i) => i < |steps| && (steps[i].id == None || steps[i].id == Some(""))
    case DuplicateId(id) => id != "" && SharedId(steps, id)
    case SelfNeed(i) => i < |steps| && steps[i].id.Some? && steps[i].id.value in steps[i].needs
    case UnknownNeed(i, n) => i < |steps| && n in steps[i].needs && n !in Known(steps)
    case DuplicateNeed(i, n) => i < |steps| && HasRepeat(steps[i].needs, n)
    case DependencyCycle(p) => IsSimpleCycle(NeedsOf(EdgesOf(steps)), p)
  }

  /** The faults of ids in the first `k` steps. */
  ghost predicate IdFault(steps: seq<RawStep>, k: int, v: Violation) {
    match v
    case MissingId(i) => i < k && i < |steps| && (steps[i].id == None || steps[i].id == Some(""))
    case DuplicateId(id) => id != "" && 0 <= k <= |steps| && SharedId(steps[..k], id)
    case _ => false
  }

  ghost predicate DeclaredBefore(steps: seq<RawStep>, k: int, id: Id) {
    exists j :: 0 <= j < k && j < |steps| && steps[j].id == Some(id)
  }

  lemma SharedIdGrows(steps: seq<RawStep>, k: nat, id: Id)
    requires k < |steps|
    ensures SharedId(steps[..k + 1], id) <==>
            SharedId(steps[..k], id) || (steps[k].id == Some(id) && DeclaredBefore(steps, k, id))
  {
    var some, more := steps[..k], steps[..k + 1];
    if i, j :| 0 <= i < j < |more| && more[i].id == Some(id) && more[j].id == Some(id) {
      assert j < k ==> some[i].id == Some(id) && some[j].id == Some(id);
    }
    if i, j :| 0 <= i < j < |some| && some[i].id == Some(id) && some[j].id == Some(id) {
      assert more[i].id == Some(id) && more[j].id == Some(id);
    }
    if steps[k].id == Some(id) && DeclaredBefore(steps, k, id) {
      var i :| 0 <= i < k && steps[i].id == Some(id);
      assert more[i].id == Some(id) && more[k].id == Some(id);
    }
  }

  method CheckIds(steps: seq<RawStep>) returns (out: seq<Violation>)
    ensures forall v :: v in out <==> IdFault(steps, |steps|, v)
  {
    out := [];
    var seen: set<Id> := {};
    for i := 0 to |steps|
      invariant forall v :: v in out <==> IdFault(steps, i, v)
      invariant forall id :: id in seen <==> id != "" && DeclaredBefore(steps, i, id)
    {
      forall id
        ensures SharedId(steps[..i + 1], id) <==>
                SharedId(steps[..i], id) || (steps[i].id == Some(id) && DeclaredBefore(steps, i, id))
        ensures DeclaredBefore(steps, i + 1, id) <==> DeclaredBefore(steps, i, id) || steps[i].id == Some(id)
      {
        SharedIdGrows(steps, i, id);
      }
      if steps[i].id == None || steps[i].id == Some("") {
        out := out + [MissingId(i)];
      } else {
        var id := steps[i].id.value;
        if id in seen {
          out := out + [DuplicateId(id)];
        }
        seen := seen + {id};
      }
    }
  }

  /** The faults of step `i` in its first `k` needs. */
  ghost predicate NeedFault(steps: seq<RawStep>, i: nat, k: int, v: Violation)
    requires i < |steps|
  {
    var step := steps[i];
    match v
    case SelfNeed(j) => j == i && exists m :: 0 <= m < k && m < |step.needs| && Some(step.needs[m]) == step.id
    case UnknownNeed(j, n) =>
      j == i && n !in Known(steps) && exists m :: 0 <= m < k && m < |step.needs| && step.needs[m] == n
    case DuplicateNeed(j, n) => j == i && 0 <= k <= |step.needs| && HasRepeat(step.needs[..k], n)
    case _ => false
  }

  lemma RepeatGrows(needs: seq<string>, k: nat, n: string)
    requires k < |needs|
    ensures HasRepeat(needs[..k + 1], n) <==> HasRepeat(needs[..k], n) || (needs[k] == n && n in needs[..k])
  {
    var some, more := needs[..k], needs[..k + 1];
    if i, j :| 0 <= i < j < |more| && more[i] == n && more[j] == n {
      assert j < k ==> some[i] == n && some[j] == n;
      assert some[i] in some;
    }
    if i, j :| 0 <= i < j < |some| && some[i] == n && some[j] == n {
      assert more[i] == n && more[j] == n;
    }
    if needs[k] == n && n in some {
      var i :| 0 <= i < k && some[i] == n;
      assert more[i] == n && more[k] == n;
    }
  }

  /** One more need, and what it can be at fault for. */
  lemma NeedFaultGrows(steps: seq<RawStep>, i: nat, k: nat, v: Violation)
    requires i < |steps| && k < |steps[i].needs|
    ensures var step, need := steps[i], steps[i].needs[k];
            NeedFault(steps, i, k + 1, v) <==>
            NeedFault(steps, i, k, v) || (v == SelfNeed(i) && Some(need) == step.id) ||
                (v == UnknownNeed(i, need) && need !in Known(steps)) ||
                (v == DuplicateNeed(i, need) && need in step.needs[..k])
  {
    if v.DuplicateNeed? {
      RepeatGrows(steps[i].needs, k, v.need);
    }
  }

  lemma OwnIdIsKnown(steps: seq<RawStep>, i: nat)
    requires i < |steps| && steps[i].id.Some?
    ensures steps[i].id.value in Known(steps)
  {
  }

  method CheckNeeds(steps: seq<RawStep>, i: nat) returns (out: seq<Violation>)
    requires i < |steps|
    ensures forall v :: v in out <==> NeedFault(steps, i, |steps[i].needs|, v)
  {
    out := [];
    var step := steps[i];
    var known := Known(steps);
    var seen: set<string> := {};
    if step.id.Some? {
      OwnIdIsKnown(steps, i);
    }
    for k := 0 to |step.needs|
      invariant forall v :: v in out <==> NeedFault(steps, i, k, v)
      invariant forall n :: n in seen <==> n in step.needs[..k]
    {
      var need := step.needs[k];
      assert step.needs[..k + 1] == step.needs[..k] + [need];
      forall v
        ensures NeedFault(steps, i, k + 1, v) <==>
                NeedFault(steps, i, k, v) || (v == SelfNeed(i) && Some(need) == step.id) ||
                    (v == UnknownNeed(i, need) && need !in known) ||
                    (v == DuplicateNeed(i, need) && need in step.needs[..k])
      {
        NeedFaultGrows(steps, i, k, v);
      }
      if Some(need) == step.id {
        out := out + [SelfNeed(i)];
      } else if need !in known {
        out := out + [UnknownNeed(i, need)];
      }
      if need in seen {
        out := out + [DuplicateNeed(i, need)];
      }
      seen := seen + {need};
    }
  }

  /** The faults of needs in the first `k` steps. */
  ghost predicate NeedFaultIn(steps: seq<RawStep>, k: int, v: Violation) {
    exists i :: 0 <= i < k && i < |steps| && NeedFault(steps, i, |steps[i].needs|, v)
  }

  method CheckAllNeeds(steps: seq<RawStep>) returns (out: seq<Violation>)
    ensures forall v :: v in out <==> NeedFaultIn(steps, |steps|, v)
  {
    out := [];
    for i := 0 to |steps|
      invariant forall v :: v in out <==> NeedFaultIn(steps, i, v)
    {
      var more := CheckNeeds(steps, i);
      forall v
        ensures NeedFaultIn(steps, i + 1, v) <==> NeedFaultIn(steps, i, v) || NeedFault(steps, i, |steps[i].needs|, v)
      {
      }
      out := out + more;
    }
  }

  method ReportCycles(cycles: seq<seq<Id>>) returns (out: seq<Violation>)
    ensures forall v :: v in out <==> v.DependencyCycle? && v.path in cycles
  {
    out := [];
    for i := 0 to |cycles|
      invariant forall v :: v in out <==> v.DependencyCycle? && v.path in cycles[..i]
    {
      assert cycles[..i + 1] == cycles[..i] + [cycles[i]];
      out := out + [DependencyCycle(cycles[i])];
    }
    assert cycles[..|cycles|] == cycles;
  }

  lemma FaultsAreJustified(steps: seq<RawStep>, v: Violation)
    requires !v.DependencyCycle?
    ensures IdFault(steps, |steps|, v) || NeedFaultIn(steps, |steps|, v) <==> Justified(steps, v)
  {
    assert steps[..|steps|] == steps;
    match v {
      case SelfNeed(i) =>
        if i < |steps| && steps[i].id.Some? && steps[i].id.value in steps[i].needs {
          assert NeedFault(steps, i, |steps[i].needs|, v);
        }
      case UnknownNeed(i, n) =>
        if i < |steps| && n in steps[i].needs && n !in Known(steps) {
          assert NeedFault(steps, i, |steps[i].needs|, v);
        }
      case DuplicateNeed(i, n) =>
        if i < |steps| {
          assert steps[i].needs[..|steps[i].needs|] == steps[i].needs;
          assert HasRepeat(steps[i].needs, n) ==> NeedFault(steps, i, |steps[i].needs|, v);
        }
      case _ =>
    }
  }

  /** The cycles reported are simple, over different steps, and leave no cycle unreported altogether. */
  ghost predicate CyclesListed(steps: seq<RawStep>, out: seq<Violation>, cycles: seq<seq<Id>>) {
    && (forall p :: DependencyCycle(p) in out <==> p in cycles)
    && (forall c :: c in cycles ==> IsSimpleCycle(NeedsOf(EdgesOf(steps)), c))
    && (forall i, j :: 0 <= i < j < |cycles| ==> Elements(cycles[i]) != Elements(cycles[j]))
    && NoneUnreported(EdgesOf(steps), cycles)
  }

  ghost predicate CyclesReported(steps: seq<RawStep>, out: seq<Violation>) {
    exists cycles :: CyclesListed(steps, out, cycles)
  }

  /** Whatever is wrong with ids and needs, and nothing else, is listed. */
  ghost predicate ExactFaults(steps: seq<RawStep>, out: seq<Violation>) {
    forall v: Violation :: !v.DependencyCycle? ==> (v in out <==> Justified(steps, v))
  }

  /** S4, S6 and S7. Of ids and needs exactly the faults that are there are reported; of cycles as many
      as the search finds, one at least on every cycle's way; and nothing exactly on the well-formed
      step lists. */
  method Check(steps: seq<RawStep>) returns (out: seq<Violation>)
    ensures ExactFaults(steps, out)
    ensures CyclesReported(steps, out)
    ensures out == [] <==> WellFormed(steps)
  {
    var ids := CheckIds(steps);
    var needs := CheckAllNeeds(steps);
    var cycles := CheckCycles(EdgesOf(steps));
    var more := ReportCycles(cycles);
    out := ids + needs + more;
    FaultsListed(steps, ids, needs, more);
    CyclesListedOnly(steps, ids, needs, more, cycles);
    ReportsExactlyFaults(steps, out, cycles);
  }

  lemma FaultsListed(steps: seq<RawStep>, ids: seq<Violation>, needs: seq<Violation>, more: seq<Violation>)
    requires forall v :: v in ids <==> IdFault(steps, |steps|, v)
    requires forall v :: v in needs <==> NeedFaultIn(steps, |steps|, v)
    requires forall v :: v in more ==> v.DependencyCycle?
    ensures ExactFaults(steps, ids + needs + more)
  {
    forall v: Violation | !v.DependencyCycle?
      ensures v in ids + needs + more <==> Justified(steps, v)
    {
      FaultsAreJustified(steps, v);
    }
  }

  lemma CyclesListedOnly(steps: seq<RawStep>, ids: seq<Violation>, needs: seq<Violation>, more: seq<Violation>,
                         cycles: seq<seq<Id>>)
    requires forall v :: v in ids <==> IdFault(steps, |steps|, v)
    requires forall v :: v in needs <==> NeedFaultIn(steps, |steps|, v)
    requires forall v :: v in more <==> v.DependencyCycle? && v.path in cycles
    requires forall c :: c in cycles ==> IsSimpleCycle(NeedsOf(EdgesOf(steps)), c)
    requires forall i, j :: 0 <= i < j < |cycles| ==> Elements(cycles[i]) != Elements(cycles[j])
    requires NoneUnreported(EdgesOf(steps), cycles)
    ensures CyclesListed(steps, ids + needs + more, cycles)
  {
    forall p
      ensures DependencyCycle(p) in ids + needs + more <==> p in cycles
    {
      assert DependencyCycle(p) !in ids && DependencyCycle(p) !in needs;
    }
  }

  lemma ReportsExactlyFaults(steps: seq<RawStep>, out: seq<Violation>, cycles: seq<seq<Id>>)
    requires ExactFaults(steps, out) && CyclesListed(steps, out, cycles)
    ensures out == [] <==> WellFormed(steps)
  {
    ReportedMeansCyclic(EdgesOf(steps), cycles);
    if cycles != [] {
      assert cycles[0] in cycles && DependencyCycle(cycles[0]) in out;
    }
    if out == [] {
      NoFaultIsWellFormed(steps);
    } else {
      assert out[0] in out;
      SomethingReported(steps, out, cycles, out[0]);
    }
  }

  lemma SomethingReported(steps: seq<RawStep>, out: seq<Violation>, cycles: seq<seq<Id>>, v: Violation)
    requires ExactFaults(steps, out) && CyclesListed(steps, out, cycles) && v in out
    ensures Justified(steps, v) && !WellFormed(steps)
  {
    if WellFormed(steps) {
      WellFormedHasNoFault(steps, v);
    }
  }

  lemma NoFaultIsWellFormed(steps: seq<RawStep>)
    requires ExactFaults(steps, []) && StepGraphAcyclic(steps)
    ensures WellFormed(steps)
  {
    forall i | 0 <= i < |steps|
      ensures steps[i].id.Some? && steps[i].id.value != "" && GoodNeeds(steps, i)
    {
      assert !Justified(steps, MissingId(i));
      assert !Justified(steps, SelfNeed(i));
      forall n | n in steps[i].needs
        ensures n in Known(steps)
      {
        assert !Justified(steps, UnknownNeed(i, n));
      }
      forall k, m | 0 <= k < m < |steps[i].needs|
        ensures steps[i].needs[k] != steps[i].needs[m]
      {
        assert !Justified(steps, DuplicateNeed(i, steps[i].needs[k]));
      }
    }
    forall i, j | 0 <= i < j < |steps|
      ensures steps[i].id != steps[j].id
    {
      assert !Justified(steps, DuplicateId(steps[i].id.value));
    }
  }

  lemma WellFormedHasNoFault(steps: seq<RawStep>, v: Violation)
    requires WellFormed(steps)
    ensures !Justified(steps, v)
  {
    match v
    case MissingId(i) =>
    case DuplicateId(id) =>
    case SelfNeed(i) => assert i < |steps| ==> GoodNeeds(steps, i);
    case UnknownNeed(i, n) => assert i < |steps| ==> GoodNeeds(steps, i);
    case DuplicateNeed(i, n) => assert i < |steps| ==> GoodNeeds(steps, i);
    case DependencyCycle(p) =>
  }
}
