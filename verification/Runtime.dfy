/** When a run is finished: the quiescence verdict, and what closing a run does. */
module Runtime {
  import opened Wrappers
  import opened NeedsGraph
  import opened Ordering
  import opened Ledger
  import opened Readiness
  import opened DeadNeeds

  /** The pinned structure of a run: step ids in formula order and each step's anchor bead. */
  datatype RunContext = RunContext(root: Id, steps: seq<string>, anchors: map<string, Id>)

  ghost predicate ValidContext(ctx: RunContext) {
    forall s :: s in ctx.steps ==> s in ctx.anchors
  }

  datatype RunDisposition = RunPass | RunSoftFail | RunHardFail

  datatype RunVerdict =
    | NotQuiescent
    | Finalize(outcome: Outcome, disposition: RunDisposition,
               softFailed: seq<string>, skipped: seq<string>, toSkip: seq<Id>)

  datatype RuntimeError = Unknown(id: Id) | Corrupt(id: Id)

  // ---- the meaning of a verdict ------------------------------------------

  /** What an anchor contributes: the last three kinds stop the scan. */
  datatype AnchorKind = Passed | WasSkipped | SoftFailed | HardFailed | ToSkip | Running | Live | Missing

  ghost function Kind(beads: Beads, a: Id): AnchorKind {
    if a !in beads then Missing
    else match beads[a].status
      case InProgress => Running
      case Open => if CanNeverRun(beads, a) then ToSkip else Live
      case Closed =>
        if beads[a].outcome == Some(Pass) then Passed
        else if beads[a].outcome == Some(Skipped) then WasSkipped
        else if beads[a].disposition == Some(SoftFail) then SoftFailed
        else HardFailed
  }

  ghost function KindAt(beads: Beads, ctx: RunContext, i: nat): AnchorKind
    requires ValidContext(ctx) && i < |ctx.steps|
  {
    Kind(beads, ctx.anchors[ctx.steps[i]])
  }

  ghost predicate StopsAt(beads: Beads, ctx: RunContext, i: nat)
    requires ValidContext(ctx) && i < |ctx.steps|
  {
    var kind := KindAt(beads, ctx, i);
    kind == Running || kind == Live || kind == Missing
  }

  /** The first `k` steps whose anchor is of one of `kinds`, in formula order. */
  ghost function StepsOf(beads: Beads, ctx: RunContext, kinds: set<AnchorKind>, k: nat): seq<string>
    requires ValidContext(ctx) && k <= |ctx.steps|
  {
    if k == 0 then []
    else StepsOf(beads, ctx, kinds, k - 1) + if KindAt(beads, ctx, k - 1) in kinds then [ctx.steps[k - 1]] else []
  }

  ghost function AnchorsOf(ctx: RunContext, steps: seq<string>): seq<Id>
    requires forall s :: s in steps ==> s in ctx.anchors
  {
    seq(|steps|, i requires 0 <= i < |steps| => ctx.anchors[steps[i]])
  }

  function Aggregate(hard: bool, softFailed: seq<string>, skipped: seq<string>): (Outcome, RunDisposition) {
    if hard then (Fail, RunHardFail)
    else if skipped != [] then (Fail, RunSoftFail)
    else if softFailed != [] then (Pass, RunSoftFail)
    else (Pass, RunPass)
  }

  lemma {:induction false} StepsOfAreSteps(beads: Beads, ctx: RunContext, kinds: set<AnchorKind>, k: nat)
    requires ValidContext(ctx) && k <= |ctx.steps|
    ensures forall s :: s in StepsOf(beads, ctx, kinds, k) <==>
                        exists i :: 0 <= i < k && ctx.steps[i] == s && KindAt(beads, ctx, i) in kinds
  {
    if k > 0 {
      StepsOfAreSteps(beads, ctx, kinds, k - 1);
    }
  }

  ghost function FinalVerdict(beads: Beads, ctx: RunContext): RunVerdict
    requires ValidContext(ctx)
  {
    var n := |ctx.steps|;
    var soft := StepsOf(beads, ctx, {SoftFailed}, n);
    var skipped := StepsOf(beads, ctx, {WasSkipped, ToSkip}, n);
    var toSkip := StepsOf(beads, ctx, {ToSkip}, n);
    StepsOfAreSteps(beads, ctx, {ToSkip}, n);
    var (outcome, disposition) := Aggregate(StepsOf(beads, ctx, {HardFailed}, n) != [], soft, skipped);
    Finalize(outcome, disposition, soft, skipped, AnchorsOf(ctx, toSkip))
  }

  ghost predicate FirstStop(beads: Beads, ctx: RunContext, i: nat)
    requires ValidContext(ctx)
  {
    && i < |ctx.steps| && StopsAt(beads, ctx, i)
    && forall j :: 0 <= j < i ==> !StopsAt(beads, ctx, j)
  }

  ghost predicate NoStop(beads: Beads, ctx: RunContext)
    requires ValidContext(ctx)
  {
    forall i :: 0 <= i < |ctx.steps| ==> !StopsAt(beads, ctx, i)
  }

  /** The verdict as a function of the ledger alone. */
  ghost function Verdict(beads: Beads, ctx: RunContext): Result<RunVerdict, RuntimeError>
    requires ValidContext(ctx)
  {
    if ctx.root !in beads then Err(Unknown(ctx.root))
    else if beads[ctx.root].status == Closed then Ok(NotQuiescent)
    else if NoStop(beads, ctx) then Ok(FinalVerdict(beads, ctx))
    else
      var i := StopIndex(beads, ctx, 0);
      if KindAt(beads, ctx, i) == Missing then Err(Unknown(ctx.anchors[ctx.steps[i]])) else Ok(NotQuiescent)
  }

  ghost function StopIndex(beads: Beads, ctx: RunContext, i: nat): (r: nat)
    requires ValidContext(ctx) && !NoStop(beads, ctx)
    requires i < |ctx.steps| && forall j :: 0 <= j < i ==> !StopsAt(beads, ctx, j)
    ensures FirstStop(beads, ctx, r)
    decreases |ctx.steps| - i
  {
    if StopsAt(beads, ctx, i) then i else StopIndex(beads, ctx, i + 1)
  }

  // ---- the scan ----------------------------------------------------------

  /** What the scan has gathered from the first `i` anchors, none of which stops it. */
  ghost predicate Gathered(beads: Beads, ctx: RunContext, i: nat, hard: bool, softFailed: seq<string>,
                           skipped: seq<string>, toSkip: seq<Id>, toSkipSteps: seq<string>)
    requires ValidContext(ctx) && i <= |ctx.steps|
  {
    && (forall j :: 0 <= j < i ==> !StopsAt(beads, ctx, j))
    && (hard <==> StepsOf(beads, ctx, {HardFailed}, i) != [])
    && softFailed == StepsOf(beads, ctx, {SoftFailed}, i)
    && skipped == StepsOf(beads, ctx, {WasSkipped, ToSkip}, i)
    && toSkipSteps == StepsOf(beads, ctx, {ToSkip}, i)
    && (forall s :: s in toSkipSteps ==> s in ctx.anchors)
    && toSkip == AnchorsOf(ctx, toSkipSteps)
  }

  lemma GatherNext(beads: Beads, ctx: RunContext, i: nat, hard: bool, softFailed: seq<string>, skipped: seq<string>,
                   toSkip: seq<Id>, toSkipSteps: seq<string>)
    requires ValidContext(ctx) && i < |ctx.steps|
    requires Gathered(beads, ctx, i, hard, softFailed, skipped, toSkip, toSkipSteps)
    ensures var step := ctx.steps[i];
            match KindAt(beads, ctx, i)
            case Passed => Gathered(beads, ctx, i + 1, hard, softFailed, skipped, toSkip, toSkipSteps)
            case WasSkipped => Gathered(beads, ctx, i + 1, hard, softFailed, skipped + [step], toSkip, toSkipSteps)
            case SoftFailed => Gathered(beads, ctx, i + 1, hard, softFailed + [step], skipped, toSkip, toSkipSteps)
            case HardFailed => Gathered(beads, ctx, i + 1, true, softFailed, skipped, toSkip, toSkipSteps)
            case ToSkip =>
              Gathered(beads, ctx, i + 1, hard, softFailed, skipped + [step],
                       toSkip + [ctx.anchors[step]], toSkipSteps + [step])
            case _ => FirstStop(beads, ctx, i)
  {
  }

  /** The scan over the anchors computes the verdict. The one other outcome is the corruption
      error, and only when some open anchor really reaches a cycle of pending beads. */
  method Finalization(beads: Beads, ctx: RunContext) returns (r: Result<RunVerdict, RuntimeError>)
    requires ValidContext(ctx)
    ensures r == Verdict(beads, ctx) ||
            (r.Err? && r.error.Corrupt? &&
             exists s :: s in ctx.steps && ReachesCycle(OpenGraph(beads), ctx.anchors[s]))
  {
    if ctx.root !in beads {
      return Err(Unknown(ctx.root));
    }
    if beads[ctx.root].status == Closed {
      return Ok(NotQuiescent);
    }
    var hard := false;
    var softFailed: seq<string>, skipped: seq<string>, toSkip: seq<Id> := [], [], [];
    ghost var toSkipSteps: seq<string> := [];
    for i := 0 to |ctx.steps|
      invariant Gathered(beads, ctx, i, hard, softFailed, skipped, toSkip, toSkipSteps)
    {
      GatherNext(beads, ctx, i, hard, softFailed, skipped, toSkip, toSkipSteps);
      var step := ctx.steps[i];
      var anchorId := ctx.anchors[step];
      if anchorId !in beads {
        return Err(Unknown(anchorId));
      }
      var anchor := beads[anchorId];
      match anchor.status {
        case Closed =>
          if anchor.outcome == Some(Skipped) {
            skipped := skipped + [step];
          } else if anchor.outcome != Some(Pass) {
            if anchor.disposition == Some(SoftFail) {
              softFailed := softFailed + [step];
            } else {
              hard := true;
            }
          }
        case InProgress => return Ok(NotQuiescent);
        case Open =>
          var never, _ := Unsatisfiable(beads, anchorId);
          if never.Err? {
            return Err(Corrupt(never.error.bead));
          }
          if !never.value {
            return Ok(NotQuiescent);
          }
          skipped := skipped + [step];
          toSkip := toSkip + [anchorId];
          toSkipSteps := toSkipSteps + [step];
      }
    }
    var (outcome, disposition) := Aggregate(hard, softFailed, skipped);
    return Ok(Finalize(outcome, disposition, softFailed, skipped, toSkip));
  }

  // ---- what a verdict says of the beads ----------------------------------

  lemma {:induction false} StepsOfPicks(beads: Beads, ctx: RunContext, kinds: set<AnchorKind>, k: nat)
    returns (at: seq<nat>)
    requires ValidContext(ctx) && k <= |ctx.steps|
    ensures Picks(ctx.steps, at, StepsOf(beads, ctx, kinds, k))
    ensures forall i :: i in at <==> 0 <= i < k && KindAt(beads, ctx, i) in kinds
  {
    at := [];
    if k > 0 {
      at := StepsOfPicks(beads, ctx, kinds, k - 1);
      if KindAt(beads, ctx, k - 1) in kinds {
        assert forall i :: 0 <= i < |at| ==> at[i] in at;
        at := at + [k - 1];
      }
    }
  }

  lemma NoneOfKinds(beads: Beads, ctx: RunContext, kinds: set<AnchorKind>)
    requires ValidContext(ctx)
    ensures StepsOf(beads, ctx, kinds, |ctx.steps|) == [] <==>
            forall i :: 0 <= i < |ctx.steps| ==> KindAt(beads, ctx, i) !in kinds
  {
    var n := |ctx.steps|;
    StepsOfAreSteps(beads, ctx, kinds, n);
    if StepsOf(beads, ctx, kinds, n) != [] {
      assert StepsOf(beads, ctx, kinds, n)[0] in StepsOf(beads, ctx, kinds, n);
    }
    forall i | 0 <= i < n && KindAt(beads, ctx, i) in kinds
      ensures ctx.steps[i] in StepsOf(beads, ctx, kinds, n)
    {
    }
  }

  /** The anchor exists, is not running, and if it is open it can never run. */
  ghost predicate AtRest(beads: Beads, a: Id) {
    && a in beads && beads[a].status != InProgress
    && (beads[a].status == Open ==> CanNeverRun(beads, a))
  }

  /** `x` is the first anchor that is not at rest. */
  ghost predicate FirstRestless(beads: Beads, ctx: RunContext, x: Id)
    requires ValidContext(ctx)
  {
    exists i :: 0 <= i < |ctx.steps| && ctx.anchors[ctx.steps[i]] == x && RestsBefore(beads, ctx, i)
  }

  ghost predicate RestsBefore(beads: Beads, ctx: RunContext, i: int)
    requires ValidContext(ctx) && i <= |ctx.steps|
  {
    forall j :: 0 <= j < i ==> AtRest(beads, ctx.anchors[ctx.steps[j]])
  }

  /** When a run finalizes, is left alone, or names a missing bead: it finalizes exactly when its root
      is open and every anchor is at rest; an error names a missing bead, the root or the first anchor
      that is not at rest. */
  lemma VerdictDecides(beads: Beads, ctx: RunContext, x: Id)
    requires ValidContext(ctx)
    ensures (Verdict(beads, ctx).Ok? && Verdict(beads, ctx).value.Finalize?) <==>
            && ctx.root in beads && beads[ctx.root].status != Closed
            && forall s :: s in ctx.steps ==> AtRest(beads, ctx.anchors[s])
    ensures Verdict(beads, ctx) == Err(Unknown(x)) <==>
            && x !in beads
            && (ctx.root in beads ==> beads[ctx.root].status != Closed && FirstRestless(beads, ctx, x))
            && (ctx.root !in beads ==> x == ctx.root)
    ensures Verdict(beads, ctx).Err? ==> Verdict(beads, ctx).error.Unknown?
  {
    forall i | 0 <= i < |ctx.steps|
      ensures StopsAt(beads, ctx, i) <==> !AtRest(beads, ctx.anchors[ctx.steps[i]])
    {
    }
    if ctx.root in beads && beads[ctx.root].status != Closed && !NoStop(beads, ctx) {
      var i := StopIndex(beads, ctx, 0);
      assert StopsAt(beads, ctx, i) && ctx.steps[i] in ctx.steps;
      assert RestsBefore(beads, ctx, i);
      if FirstRestless(beads, ctx, x) && x !in beads {
        var k :| 0 <= k < |ctx.steps| && ctx.anchors[ctx.steps[k]] == x && RestsBefore(beads, ctx, k);
        assert k == i;
      }
    }
  }

  /** The bead failed: closed, and neither passed nor skipped. */
  predicate Failed(bead: Bead) {
    bead.status == Closed && bead.outcome != Some(Pass) && bead.outcome != Some(Skipped)
  }

  predicate ClosedAs(bead: Bead, outcome: Outcome) {
    bead.status == Closed && bead.outcome == Some(outcome)
  }

  /** An anchor of a run that finalizes is closed, or open and to be skipped. */
  lemma FinalKind(beads: Beads, ctx: RunContext, i: nat)
    requires ValidContext(ctx) && NoStop(beads, ctx) && i < |ctx.steps|
    ensures ctx.anchors[ctx.steps[i]] in beads
    ensures var bead := beads[ctx.anchors[ctx.steps[i]]];
            KindAt(beads, ctx, i) ==
            if bead.status == Open then ToSkip
            else if ClosedAs(bead, Pass) then Passed
            else if ClosedAs(bead, Skipped) then WasSkipped
            else if bead.disposition == Some(SoftFail) then SoftFailed
            else HardFailed
    ensures beads[ctx.anchors[ctx.steps[i]]].status != InProgress
  {
    assert !StopsAt(beads, ctx, i);
  }

  lemma FinalTotals(beads: Beads, ctx: RunContext, v: RunVerdict)
    requires ValidContext(ctx) && NoStop(beads, ctx) && v == FinalVerdict(beads, ctx)
    ensures v.outcome == Pass || v.outcome == Fail
    ensures v.outcome == Pass <==> forall i :: 0 <= i < |ctx.steps| ==>
              KindAt(beads, ctx, i) == Passed || KindAt(beads, ctx, i) == SoftFailed
    ensures v.disposition == RunHardFail <==> exists i :: 0 <= i < |ctx.steps| && KindAt(beads, ctx, i) == HardFailed
    ensures v.disposition == RunPass <==> forall i :: 0 <= i < |ctx.steps| ==> KindAt(beads, ctx, i) == Passed
  {
    NoneOfKinds(beads, ctx, {HardFailed});
    NoneOfKinds(beads, ctx, {SoftFailed});
    NoneOfKinds(beads, ctx, {WasSkipped, ToSkip});
    forall i | 0 <= i < |ctx.steps|
      ensures KindAt(beads, ctx, i) in {Passed, WasSkipped, SoftFailed, HardFailed, ToSkip}
    {
      FinalKind(beads, ctx, i);
    }
  }

  lemma FinalOutcomes(beads: Beads, ctx: RunContext, v: RunVerdict)
    requires ValidContext(ctx) && NoStop(beads, ctx) && v == FinalVerdict(beads, ctx)
    ensures forall s :: s in ctx.steps ==> ctx.anchors[s] in beads
    ensures v.outcome == Pass <==> forall s :: s in ctx.steps ==>
              var bead := beads[ctx.anchors[s]];
              ClosedAs(bead, Pass) || (Failed(bead) && bead.disposition == Some(SoftFail))
    ensures v.disposition == RunHardFail <==>
            exists s :: s in ctx.steps && Failed(beads[ctx.anchors[s]]) &&
                beads[ctx.anchors[s]].disposition != Some(SoftFail)
    ensures v.disposition == RunPass <==> forall s :: s in ctx.steps ==> ClosedAs(beads[ctx.anchors[s]], Pass)
  {
    FinalTotals(beads, ctx, v);
    forall i: nat | i < |ctx.steps|
      ensures ctx.anchors[ctx.steps[i]] in beads
      ensures var bead := beads[ctx.anchors[ctx.steps[i]]];
              && (KindAt(beads, ctx, i) == Passed <==> ClosedAs(bead, Pass))
              && (KindAt(beads, ctx, i) == SoftFailed <==> Failed(bead) && bead.disposition == Some(SoftFail))
              && (KindAt(beads, ctx, i) == HardFailed <==> Failed(bead) && bead.disposition != Some(SoftFail))
      ensures ctx.steps[i] in ctx.steps
    {
      FinalKind(beads, ctx, i);
    }
  }

  /** What a final verdict says, read off the beads. The run passes exactly when every anchor passed or
      failed softly; it fails hard exactly when some anchor failed and is not recorded as having failed
      softly; it passes without a mark exactly when all passed. The steps it lists are exactly those
      that failed softly, those skipped or still open, and of these the open ones, each list in formula
      order. */
  lemma VerdictMeans(beads: Beads, ctx: RunContext, v: RunVerdict)
    returns (soft: seq<nat>, skipped: seq<nat>, open: seq<nat>)
    requires ValidContext(ctx) && Verdict(beads, ctx) == Ok(v) && v.Finalize?
    ensures forall s :: s in ctx.steps ==> ctx.anchors[s] in beads
    ensures v.outcome == Pass || v.outcome == Fail
    ensures v.outcome == Pass <==> forall s :: s in ctx.steps ==>
              var bead := beads[ctx.anchors[s]];
              ClosedAs(bead, Pass) || (Failed(bead) && bead.disposition == Some(SoftFail))
    ensures v.disposition == RunHardFail <==>
            exists s :: s in ctx.steps && Failed(beads[ctx.anchors[s]]) &&
                beads[ctx.anchors[s]].disposition != Some(SoftFail)
    ensures v.disposition == RunPass <==> forall s :: s in ctx.steps ==> ClosedAs(beads[ctx.anchors[s]], Pass)
    ensures Picks(ctx.steps, soft, v.softFailed) && Picks(ctx.steps, skipped, v.skipped)
    ensures |open| == |v.toSkip| && (forall i, j :: 0 <= i < j < |open| ==> open[i] < open[j])
    ensures forall i :: (i in soft || i in skipped || i in open) ==> i < |ctx.steps|
    ensures forall i: nat :: i < |ctx.steps| ==>
              var bead := beads[ctx.anchors[ctx.steps[i]]];
              && (i in soft <==> Failed(bead) && bead.disposition == Some(SoftFail))
              && (i in skipped <==> ClosedAs(bead, Skipped) || bead.status == Open)
              && (i in open <==> bead.status == Open)
    ensures forall i :: 0 <= i < |open| ==> open[i] in open && v.toSkip[i] == ctx.anchors[ctx.steps[open[i]]]
  {
    var n := |ctx.steps|;
    soft := StepsOfPicks(beads, ctx, {SoftFailed}, n);
    skipped := StepsOfPicks(beads, ctx, {WasSkipped, ToSkip}, n);
    open := StepsOfPicks(beads, ctx, {ToSkip}, n);
    StepsOfAreSteps(beads, ctx, {ToSkip}, n);
    FinalTotals(beads, ctx, v);
    forall i: nat | i < n
      ensures ctx.anchors[ctx.steps[i]] in beads
    {
      FinalKind(beads, ctx, i);
    }
    forall i: nat | i < n
      ensures var bead := beads[ctx.anchors[ctx.steps[i]]];
              && (i in soft <==> Failed(bead) && bead.disposition == Some(SoftFail))
              && (i in skipped <==> ClosedAs(bead, Skipped) || bead.status == Open)
              && (i in open <==> bead.status == Open)
    {
      FinalKind(beads, ctx, i);
    }
    assert forall i :: 0 <= i < |open| ==> open[i] in open;
    FinalOutcomes(beads, ctx, v);
  }
}
