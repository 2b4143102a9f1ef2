/** Paths and cycles over a `needs` relation. Every dependency claim in the project
    (formula validation, the runtime walk, expansion) is stated with these notions. */
module NeedsGraph {

  type Id = string

  /** A node's out-edges. A node that is not a key has none. */
  type Graph = map<Id, set<Id>>

  predicate Edge(g: Graph, u: Id, v: Id) {
    u in g && v in g[u]
  }

  predicate Hop(g: Graph, p: seq<Id>, i: int)
    requires 0 <= i < |p| - 1
  {
    Edge(g, p[i], p[i + 1])
  }

  ghost predicate IsPath(g: Graph, p: seq<Id>) {
    |p| > 0 && forall i :: 0 <= i < |p| - 1 ==> Hop(g, p, i)
  }

  /** A closed walk of at least one edge. */
  ghost predicate IsCycle(g: Graph, p: seq<Id>) {
    IsPath(g, p) && |p| >= 2 && p[0] == p[|p| - 1]
  }

  ghost predicate Acyclic(g: Graph) {
    forall p :: !IsCycle(g, p)
  }

  ghost predicate Reaches(g: Graph, u: Id, v: Id) {
    exists p :: IsPath(g, p) && p[0] == u && p[|p| - 1] == v
  }

  /** A walk from `u` that comes back to a node it has already visited. */
  ghost predicate IsLasso(g: Graph, u: Id, p: seq<Id>) {
    && IsPath(g, p) && p[0] == u
    && exists i :: 0 <= i < |p| - 1 && p[i] == p[|p| - 1]
  }

  ghost predicate ReachesCycle(g: Graph, u: Id) {
    exists p :: IsLasso(g, u, p)
  }

  predicate NoDuplicates<T(==)>(s: seq<T>) {
    forall i, j :: 0 <= i < j < |s| ==> s[i] != s[j]
  }

  ghost function Elements(s: seq<Id>): set<Id> {
    set x | x in s
  }

  lemma ElementsAppend(s: seq<Id>, x: Id)
    ensures Elements(s + [x]) == Elements(s) + {x}
  {
  }

  lemma NoDuplicatesInit(s: seq<Id>, x: Id)
    requires NoDuplicates(s + [x])
    ensures NoDuplicates(s) && x !in s
  {
    var full := s + [x];
    assert forall i :: 0 <= i < |s| ==> full[i] == s[i] && full[i] != full[|s|];
    forall i, j | 0 <= i < j < |s|
      ensures s[i] != s[j]
    {
      assert full[i] != full[j];
    }
  }

  /** Every edge goes to a strictly smaller rank. */
  ghost predicate Ranks(g: Graph, rank: map<Id, nat>) {
    forall u, v :: Edge(g, u, v) ==> u in rank && v in rank && rank[v] < rank[u]
  }

  lemma {:induction false} RankFallsAlongPath(g: Graph, rank: map<Id, nat>, p: seq<Id>, k: nat)
    requires Ranks(g, rank) && IsPath(g, p) && 1 <= k < |p|
    ensures p[0] in rank && p[k] in rank && rank[p[k]] < rank[p[0]]
  {
    assert Hop(g, p, k - 1);
    if k > 1 {
      RankFallsAlongPath(g, rank, p, k - 1);
    }
  }

  lemma RankedIsAcyclic(g: Graph, rank: map<Id, nat>)
    requires Ranks(g, rank)
    ensures Acyclic(g)
  {
    forall p | IsPath(g, p) && |p| >= 2
      ensures p[0] != p[|p| - 1]
    {
      RankFallsAlongPath(g, rank, p, |p| - 1);
    }
  }

  lemma PathTail(g: Graph, p: seq<Id>, k: nat)
    requires IsPath(g, p) && k < |p|
    ensures IsPath(g, p[k..])
  {
    forall i | 0 <= i < |p[k..]| - 1
      ensures Hop(g, p[k..], i)
    {
      assert Hop(g, p, k + i);
    }
  }

  lemma PathInit(g: Graph, p: seq<Id>)
    requires IsPath(g, p) && |p| >= 2
    ensures IsPath(g, p[..|p| - 1])
  {
    var q := p[..|p| - 1];
    forall i | 0 <= i < |q| - 1
      ensures Hop(g, q, i)
    {
      assert Hop(g, p, i);
    }
  }

  lemma PathJoin(g: Graph, p: seq<Id>, q: seq<Id>)
    requires IsPath(g, p) && IsPath(g, q) && Edge(g, p[|p| - 1], q[0])
    ensures IsPath(g, p + q)
  {
    forall i | 0 <= i < |p + q| - 1
      ensures Hop(g, p + q, i)
    {
      if i < |p| - 1 {
        assert Hop(g, p, i);
      } else if i >= |p| {
        assert Hop(g, q, i - |p|);
      }
    }
  }

  lemma PathSnoc(g: Graph, p: seq<Id>, v: Id)
    requires IsPath(g, p) && Edge(g, p[|p| - 1], v)
    ensures IsPath(g, p + [v])
  {
    PathJoin(g, p, [v]);
  }

  /** The closing edge turns the stretch of a path from `k` on into a cycle. */
  lemma PathClosesCycle(g: Graph, p: seq<Id>, k: nat)
    requires IsPath(g, p) && k < |p| && Edge(g, p[|p| - 1], p[k])
    ensures IsCycle(g, p[k..] + [p[k]])
  {
    PathTail(g, p, k);
    PathSnoc(g, p[k..], p[k]);
  }

  lemma LassoHoldsCycle(g: Graph, u: Id)
    requires ReachesCycle(g, u)
    ensures !Acyclic(g)
  {
    var p :| IsLasso(g, u, p);
    var i :| 0 <= i < |p| - 1 && p[i] == p[|p| - 1];
    PathTail(g, p, i);
    assert IsCycle(g, p[i..]);
  }

  ghost predicate HasEdgeInto(g: Graph, u: Id, nodes: set<Id>) {
    exists v :: v in nodes && Edge(g, u, v)
  }

  /** Every node of the set has an edge back into the set. */
  ghost predicate Trap(g: Graph, trap: set<Id>) {
    forall u {:trigger HasEdgeInto(g, u, trap)} :: u in trap ==> HasEdgeInto(g, u, trap)
  }

  /** Walking inside a finite trap must revisit a node; `p` is the walk so far. */
  lemma {:induction false} TrappedWalk(g: Graph, trap: set<Id>, p: seq<Id>)
    requires Trap(g, trap) && IsPath(g, p) && NoDuplicates(p) && Elements(p) <= trap
    ensures !Acyclic(g)
    decreases |trap - Elements(p)|
  {
    var u := p[|p| - 1];
    assert u in Elements(p);
    assert HasEdgeInto(g, u, trap);
    var v :| v in trap && Edge(g, u, v);
    if k :| 0 <= k < |p| && p[k] == v {
      PathClosesCycle(g, p, k);
    } else {
      PathSnoc(g, p, v);
      ElementsAppend(p, v);
      assert v in trap - Elements(p);
      assert trap - Elements(p + [v]) == (trap - Elements(p)) - {v};
      TrappedWalk(g, trap, p + [v]);
    }
  }

  lemma TrapHoldsCycle(g: Graph, trap: set<Id>, u: Id)
    requires Trap(g, trap) && u in trap
    ensures !Acyclic(g)
  {
    TrappedWalk(g, trap, [u]);
  }

  lemma EdgeReaches(g: Graph, u: Id, v: Id)
    requires Edge(g, u, v)
    ensures Reaches(g, u, v)
  {
    var p := [u, v];
    assert Hop(g, p, 0);
    assert IsPath(g, p) && p[0] == u && p[|p| - 1] == v;
  }

  lemma ReachesTransitive(g: Graph, u: Id, v: Id, w: Id)
    requires Reaches(g, u, v) && Reaches(g, v, w)
    ensures Reaches(g, u, w)
  {
    var p :| IsPath(g, p) && p[0] == u && p[|p| - 1] == v;
    var q :| IsPath(g, q) && q[0] == v && q[|q| - 1] == w;
    if |q| > 1 {
      assert Hop(g, q, 0);
      PathTail(g, q, 1);
      PathJoin(g, p, q[1..]);
      var r := p + q[1..];
      assert IsPath(g, r) && r[0] == u && r[|r| - 1] == w;
    }
  }
}
