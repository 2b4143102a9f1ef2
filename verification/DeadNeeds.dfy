/** Whether a bead's needs can never all pass: the meaning, and the three-colour walk that
    computes it. */
module DeadNeeds {
  import opened Wrappers
  import opened NeedsGraph
  import opened Ledger
  import opened Readiness

  // ---- the meaning -------------------------------------------------------

  /** A need that will not come to pass: missing, or closed with anything but a pass. */
  predicate Dead(beads: Beads, n: Id) {
    n !in beads || (beads[n].status == Closed && beads[n].outcome != Some(Pass))
  }

  predicate Pending(beads: Beads, n: Id) {
    n in beads && beads[n].status != Closed
  }

  function NeedsOf(beads: Beads, b: Id): set<Id> {
    if b in beads then beads[b].needs else {}
  }

  /** `p` leads from `b`, need by need through beads still pending, to a dead one. */
  ghost predicate DeadChain(beads: Beads, b: Id, p: seq<Id>)
    decreases p
  {
    && p != [] && p[0] in NeedsOf(beads, b)
    && if |p| == 1 then Dead(beads, p[0]) else Pending(beads, p[0]) && DeadChain(beads, p[0], p[1..])
  }

  ghost predicate CanNeverRun(beads: Beads, b: Id) {
    exists p :: DeadChain(beads, b, p)
  }

  /** One unfolding of the recursive reading: some need is dead, or pending and in `stuck`. */
  ghost predicate HasStuckNeed(beads: Beads, b: Id, stuck: iset<Id>) {
    exists n :: n in NeedsOf(beads, b) && (Dead(beads, n) || (Pending(beads, n) && n in stuck))
  }

  lemma DeadNeedSuffices(beads: Beads, b: Id, n: Id)
    requires n in NeedsOf(beads, b)
    requires Dead(beads, n) || (Pending(beads, n) && CanNeverRun(beads, n))
    ensures CanNeverRun(beads, b)
  {
    if Dead(beads, n) {
      assert DeadChain(beads, b, [n]);
    } else {
      var p :| DeadChain(beads, n, p);
      assert ([n] + p)[1..] == p;
      assert DeadChain(beads, b, [n] + p);
    }
  }

  /** The chains compute a fixed point of the recursive reading… */
  lemma CanNeverRunIsFixedPoint(beads: Beads, b: Id)
    ensures CanNeverRun(beads, b) <==> HasStuckNeed(beads, b, iset x | CanNeverRun(beads, x))
  {
    if CanNeverRun(beads, b) {
      var p :| DeadChain(beads, b, p);
      if |p| > 1 {
        assert DeadChain(beads, p[0], p[1..]);
      }
    }
    if HasStuckNeed(beads, b, iset x | CanNeverRun(beads, x)) {
      var n :| n in NeedsOf(beads, b) && (Dead(beads, n) || (Pending(beads, n) && CanNeverRun(beads, n)));
      DeadNeedSuffices(beads, b, n);
    }
  }

  /** …and the least one: any set closed under the reading contains every such bead. */
  lemma {:induction false} CanNeverRunIsLeast(beads: Beads, stuck: iset<Id>, b: Id, p: seq<Id>)
    requires forall x :: HasStuckNeed(beads, x, stuck) ==> x in stuck
    requires DeadChain(beads, b, p)
    ensures b in stuck
    decreases p
  {
    if |p| > 1 {
      CanNeverRunIsLeast(beads, stuck, p[0], p[1..]);
    }
    assert HasStuckNeed(beads, b, stuck);
  }

  /** Beads whose needs have all passed or are pending beads of the same set. */
  ghost predicate Hopeful(beads: Beads, group: set<Id>) {
    forall b, n :: b in group && n in NeedsOf(beads, b) ==> Met(beads, n) || (Pending(beads, n) && n in group)
  }

  lemma HopefulCanRun(beads: Beads, hopeful: set<Id>, b: Id)
    requires Hopeful(beads, hopeful) && b in hopeful
    ensures !CanNeverRun(beads, b)
  {
    var stuck := iset x: Id | x !in hopeful;
    forall x | HasStuckNeed(beads, x, stuck)
      ensures x in stuck
    {
      var n :| n in NeedsOf(beads, x) && (Dead(beads, n) || (Pending(beads, n) && n in stuck));
      assert x in hopeful ==> Met(beads, n) || (Pending(beads, n) && n in hopeful);
    }
    if p :| DeadChain(beads, b, p) {
      CanNeverRunIsLeast(beads, stuck, b, p);
    }
  }

  // ---- the walk ----------------------------------------------------------

  /** Bead to pending need: the edges the walk follows. */
  ghost function OpenGraph(beads: Beads): Graph {
    map b | b in beads :: set n | n in beads[b].needs && Pending(beads, n)
  }

  datatype WalkError = NeedsCycle(bead: Id)

  ghost predicate TrailMatches(g: Graph, start: Id, gray: set<Id>, trail: seq<Id>) {
    && NoDuplicates(trail)
    && (forall k :: k in trail <==> k in gray)
    && (trail != [] ==> IsPath(g, trail) && trail[0] == start)
  }

  lemma PopTrail(g: Graph, start: Id, gray: set<Id>, trail: seq<Id>)
    requires TrailMatches(g, start, gray, trail) && trail != []
    ensures var rest, bead := trail[..|trail| - 1], trail[|trail| - 1];
            bead in gray && TrailMatches(g, start, gray - {bead}, rest)
  {
    var rest, bead := trail[..|trail| - 1], trail[|trail| - 1];
    assert trail == rest + [bead] && bead in trail;
    NoDuplicatesInit(rest, bead);
    forall k
      ensures k in rest <==> k in gray - {bead}
    {
      assert k in trail <==> k in rest || k == bead;
    }
    if rest != [] {
      assert rest[0] == trail[0];
      PathInit(g, trail);
    }
  }

  /** Memoized answers are right: a `true` has its dead chain, and the `false` ones support each
      other, each by answers completed before it. */
  ghost predicate AnswersRight(beads: Beads, black: map<Id, bool>, rank: map<Id, nat>, clock: nat) {
    && (forall b :: b in black && black[b] ==> CanNeverRun(beads, b))
    && (forall b :: b in black ==> b in rank && rank[b] < clock)
    && (forall b, n :: b in black && !black[b] && n in NeedsOf(beads, b) ==>
          Met(beads, n) || (Pending(beads, n) && n in black && !black[n] && rank[n] < rank[b]))
  }

  /** The needs of `bead` settle it: a dead chain for `true`, memoized support for `false`. */
  ghost predicate Explains(beads: Beads, black: map<Id, bool>, bead: Id, answer: bool) {
    && (answer ==> CanNeverRun(beads, bead))
    && (!answer ==> forall n :: n in NeedsOf(beads, bead) ==>
          Met(beads, n) || (Pending(beads, n) && n in black && !black[n]))
  }

  lemma MemoizeAnswer(beads: Beads, black: map<Id, bool>, rank: map<Id, nat>, clock: nat, bead: Id, answer: bool)
    requires AnswersRight(beads, black, rank, clock) && bead !in black
    requires Explains(beads, black, bead, answer)
    ensures AnswersRight(beads, black[bead := answer], rank[bead := clock], clock + 1)
  {
  }

  lemma FalseAnswerCanRun(beads: Beads, black: map<Id, bool>, rank: map<Id, nat>, clock: nat, b: Id)
    requires AnswersRight(beads, black, rank, clock) && b in black && !black[b]
    ensures !CanNeverRun(beads, b)
    ensures !ReachesCycle(OpenGraph(beads), b)
  {
    var hopeful := set x | x in black && !black[x];
    HopefulCanRun(beads, hopeful, b);
    var h: Graph := map x | x in hopeful && x in beads :: OpenGraph(beads)[x];
    RankedIsAcyclic(h, rank);
    forall p | IsLasso(OpenGraph(beads), b, p)
      ensures IsLasso(h, b, p)
    {
      forall i | 0 <= i < |p| - 1
        ensures Hop(h, p, i)
      {
        StaysHopeful(beads, black, rank, clock, p, i);
        assert Hop(OpenGraph(beads), p, i);
      }
    }
    if ReachesCycle(OpenGraph(beads), b) {
      var p :| IsLasso(OpenGraph(beads), b, p);
      assert IsLasso(h, b, p);
      LassoHoldsCycle(h, b);
    }
  }

  lemma {:induction false} StaysHopeful(beads: Beads, black: map<Id, bool>, rank: map<Id, nat>, clock: nat, p: seq<Id>,
                                        i: nat)
    requires AnswersRight(beads, black, rank, clock)
    requires IsPath(OpenGraph(beads), p) && p[0] in black && !black[p[0]] && i < |p|
    ensures p[i] in black && !black[p[i]]
  {
    if i > 0 {
      StaysHopeful(beads, black, rank, clock, p, i - 1);
      assert Hop(OpenGraph(beads), p, i - 1);
    }
  }

  class Walker {
    const beads: Beads
    var gray: set<Id>
    var black: map<Id, bool>
    ghost const start: Id
    ghost var trail: seq<Id>      // the current recursion path, in order
    ghost var expanded: seq<Id>   // every bead whose needs were queried
    ghost var rank: map<Id, nat>  // when each answer was completed
    ghost var clock: nat

    constructor (beads: Beads, start: Id)
      ensures this.beads == beads && this.start == start && Valid() && trail == []
    {
      this.beads, this.start := beads, start;
      gray, black := {}, map[];
      trail, expanded, rank, clock := [], [], map[], 0;
    }

    ghost predicate Valid()
      reads this
    {
      && TrailMatches(OpenGraph(beads), start, gray, trail)
      && AnswersRight(beads, black, rank, clock)
      && gray !! black.Keys
      && NoDuplicates(expanded)
      && (forall k :: k in expanded ==> k in gray || k in black)
    }

    /** The beads the walk could still expand. */
    ghost function Unexpanded(): set<Id>
      reads this
    {
      (beads.Keys + {start}) - gray - black.Keys
    }

    ghost predicate CanVisit(bead: Id)
      reads this
    {
      if trail == [] then bead == start else Edge(OpenGraph(beads), trail[|trail| - 1], bead)
    }

    method Walk(bead: Id) returns (r: Result<bool, WalkError>)
      requires Valid() && CanVisit(bead)
      modifies this
      ensures NoDuplicates(expanded)
      ensures match r
              case Ok(answer) =>
                && Valid() && gray == old(gray) && trail == old(trail)
                && old(black).Keys <= black.Keys && bead in black && black[bead] == answer
                && (forall k :: k in old(black) ==> black[k] == old(black)[k])
              case Err(_) => ReachesCycle(OpenGraph(beads), start)
      decreases Unexpanded(), 0
    {
      if bead in black {
        return Ok(black[bead]);
      }
      if bead in gray {
        TrailReturns(bead);
        return Err(NeedsCycle(bead));
      }
      Enter(bead);
      r := Needs(bead);
      Leave(bead, r);
    }

    lemma TrailReturns(bead: Id)
      requires Valid() && CanVisit(bead) && bead in gray
      ensures ReachesCycle(OpenGraph(beads), start)
    {
      PathSnoc(OpenGraph(beads), trail, bead);
      var i :| 0 <= i < |trail| && trail[i] == bead;
      var p := trail + [bead];
      assert p[i] == p[|p| - 1];
      assert IsLasso(OpenGraph(beads), start, p);
    }

    /** Paint `bead` gray. */
    method Enter(bead: Id)
      requires Valid() && CanVisit(bead) && bead !in gray && bead !in black
      modifies this`gray, this`trail, this`expanded
      ensures Valid() && gray == old(gray) + {bead} && trail == old(trail) + [bead]
      ensures Unexpanded() < old(Unexpanded())
    {
      if trail != [] {
        PathSnoc(OpenGraph(beads), trail, bead);
      }
      assert bead in Unexpanded();
      gray := gray + {bead};
      trail := trail + [bead];
      expanded := expanded + [bead];
    }

    /** Ungray `bead` whatever happened; memoize only a completed answer. */
    method Leave(bead: Id, r: Result<bool, WalkError>)
      requires r.Ok? ==> Valid() && trail != [] && trail[|trail| - 1] == bead
      requires r.Ok? ==> Explains(beads, black, bead, r.value)
      modifies this`gray, this`trail, this`black, this`rank, this`clock
      ensures r.Ok? ==>
        && Valid() && gray == old(gray) - {bead} && trail == old(trail)[..|old(trail)| - 1]
        && black == old(black)[bead := r.value]
    {
      if r.Ok? {
        PopTrail(OpenGraph(beads), start, gray, trail);
        MemoizeAnswer(beads, black, rank, clock, bead, r.value);
        trail := trail[..|trail| - 1];
        black := black[bead := r.value];
        rank, clock := rank[bead := clock], clock + 1;
      }
      gray := gray - {bead};
    }

    method Needs(bead: Id) returns (r: Result<bool, WalkError>)
      requires Valid() && trail != [] && trail[|trail| - 1] == bead
      modifies this
      ensures NoDuplicates(expanded)
      ensures match r
              case Ok(answer) =>
                && Valid() && gray == old(gray) && trail == old(trail)
                && old(black).Keys <= black.Keys
                && (forall k :: k in old(black) ==> black[k] == old(black)[k])
                && Explains(beads, black, bead, answer)
              case Err(_) => ReachesCycle(OpenGraph(beads), start)
      decreases Unexpanded(), 1
    {
      var needs := NeedsOf(beads, bead);
      while needs != {}
        invariant needs <= NeedsOf(beads, bead)
        invariant Valid() && gray == old(gray) && trail == old(trail)
        invariant old(black).Keys <= black.Keys
        invariant forall k :: k in old(black) ==> black[k] == old(black)[k]
        invariant forall n :: n in NeedsOf(beads, bead) && n !in needs ==>
            Met(beads, n) || (Pending(beads, n) && n in black && !black[n])
        decreases needs
      {
        var need :| need in needs;
        if need !in beads {
          DeadNeedSuffices(beads, bead, need);
          return Ok(true);
        }
        if beads[need].status == Closed {
          if beads[need].outcome != Some(Pass) {
            DeadNeedSuffices(beads, bead, need);
            return Ok(true);
          }
        } else {
          var answer := Walk(need);
          if answer.Err? {
            return answer;
          }
          if answer.value {
            DeadNeedSuffices(beads, bead, need);
            return Ok(true);
          }
        }
        needs := needs - {need};
      }
      return Ok(false);
    }
  }

  /** On any ledger, cyclic or not: an answer is the meaning; `false` moreover rules out a
      reachable cycle of pending beads; the cycle error is raised only when there is one; and no
      bead's needs are queried twice. */
  method Unsatisfiable(beads: Beads, bead: Id) returns (r: Result<bool, WalkError>, ghost expanded: seq<Id>)
    ensures match r
            case Ok(answer) =>
              && (answer <==> CanNeverRun(beads, bead))
              && (answer || !ReachesCycle(OpenGraph(beads), bead))
            case Err(_) => ReachesCycle(OpenGraph(beads), bead)
    ensures NoDuplicates(expanded)
  {
    var walker := new Walker(beads, bead);
    r := walker.Walk(bead);
    expanded := walker.expanded;
    if r == Ok(false) {
      FalseAnswerCanRun(beads, walker.black, walker.rank, walker.clock, bead);
    }
  }
}
