/** Cooking a run: a block of consecutive bead ids, the `needs` edges between them, and one
    all-or-nothing batch of creations. */
module Cook {
  import opened Wrappers
  import opened NeedsGraph
  import opened Ids
  import opened Ledger
  import opened Runtime
  import opened RunSafety
  import Validate

  datatype Step = Step(id: string, needs: seq<string>)

  datatype CookError =
    | NoSteps
    | NoIds(ids: IdError)
    | UnknownStep
    | Rejected(cause: LedgerError)

  // ---- what is written ---------------------------------------------------

  /** Step id to bead id over the first `k` steps: numbers from `first` on, a later step of the
      same id replacing an earlier one. */
  function StepBeads(prefix: string, first: nat, steps: seq<Step>, k: nat): map<string, Id>
    requires k <= |steps|
  {
    if k == 0 then map[]
    else StepBeads(prefix, first, steps, k - 1)[steps[k - 1].id := FormatId(prefix, first + (k - 1))]
  }

  predicate Resolvable(beads: map<string, Id>, needs: seq<string>) {
    forall n :: n in needs ==> n in beads
  }

  function Resolve(beads: map<string, Id>, needs: seq<string>): seq<Id>
    requires Resolvable(beads, needs)
  {
    seq(|needs|, i requires 0 <= i < |needs| => beads[needs[i]])
  }

  /** The bead ids the map still holds, in step order. */
  function HeldBeads(beads: map<string, Id>, prefix: string, first: nat, steps: seq<Step>, k: nat): seq<Id>
    requires k <= |steps|
  {
    if k == 0 then []
    else
      var id, bead := steps[k - 1].id, FormatId(prefix, first + (k - 1));
      HeldBeads(beads, prefix, first, steps, k - 1) + if id in beads && beads[id] == bead then [bead] else []
  }

  predicate AllResolvable(beads: map<string, Id>, steps: seq<Step>) {
    forall i :: 0 <= i < |steps| ==> steps[i].id in beads && Resolvable(beads, steps[i].needs)
  }

  function StepEvents(beads: map<string, Id>, rig: string, steps: seq<Step>): seq<Event>
    requires AllResolvable(beads, steps)
  {
    seq(|steps|, i requires 0 <= i < |steps| => BeadCreated(beads[steps[i].id], rig, Resolve(beads, steps[i].needs)))
  }

  function ContextOf(root: Id, steps: seq<Step>, beads: map<string, Id>): RunContext {
    RunContext(root, seq(|steps|, i requires 0 <= i < |steps| => steps[i].id), beads)
  }

  /** The whole effect of cooking as a function of the tables. */
  function Cooked(t: Tables, prefix: string, rig: string, steps: seq<Step>, extraRootNeeds: seq<Id>)
    : Result<(Tables, RunContext), CookError>
  {
    if steps == [] then Err(NoSteps)
    else match NextBeadId(t.counters, prefix)
      case Err(e) => Err(NoIds(e))
      case Ok(root) =>
        var n := High(t.counters, prefix) + 1;
        if n + |steps| > I64_MAX then Err(NoIds(Overflow))
        else
          var beads := StepBeads(prefix, n + 1, steps, |steps|);
          Written(t, root, rig, HeldBeads(beads, prefix, n + 1, steps, |steps|) + extraRootNeeds, beads, steps)
  }

  /** Resolve the edges and append the batch. */
  function Written(t: Tables, root: Id, rig: string, rootNeeds: seq<Id>, stepBeads: map<string, Id>, steps: seq<Step>)
    : Result<(Tables, RunContext), CookError>
  {
    if !AllResolvable(stepBeads, steps) then Err(UnknownStep)
    else match ApplyBatch(t, [BeadCreated(root, rig, rootNeeds)] + StepEvents(stepBeads, rig, steps))
      case Err(e) => Err(Rejected(e))
      case Ok(after) => Ok((after, ContextOf(root, steps, stepBeads)))
  }

  lemma {:induction false} StepBeadsKeys(prefix: string, first: nat, steps: seq<Step>, k: nat)
    requires k <= |steps|
    ensures forall i :: 0 <= i < k ==> steps[i].id in StepBeads(prefix, first, steps, k)
  {
    if k > 0 {
      StepBeadsKeys(prefix, first, steps, k - 1);
    }
  }

  method NumberSteps(prefix: string, first: nat, steps: seq<Step>) returns (stepBeads: map<string, Id>)
    ensures stepBeads == StepBeads(prefix, first, steps, |steps|)
  {
    stepBeads := map[];
    for offset := 0 to |steps|
      invariant stepBeads == StepBeads(prefix, first, steps, offset)
    {
      stepBeads := stepBeads[steps[offset].id := FormatId(prefix, first + offset)];
    }
  }

  method ResolveNeeds(stepBeads: map<string, Id>, step: Step) returns (needs: Option<seq<Id>>)
    ensures needs == if Resolvable(stepBeads, step.needs) then Some(Resolve(stepBeads, step.needs)) else None
  {
    var found: seq<Id> := [];
    for k := 0 to |step.needs|
      invariant |found| == k
      invariant forall j :: 0 <= j < k ==> step.needs[j] in stepBeads && found[j] == stepBeads[step.needs[j]]
    {
      if step.needs[k] !in stepBeads {
        return None;
      }
      found := found + [stepBeads[step.needs[k]]];
    }
    assert found == Resolve(stepBeads, step.needs);
    return Some(found);
  }

  method StepBatch(stepBeads: map<string, Id>, rig: string, steps: seq<Step>) returns (created: Option<seq<Event>>)
    requires forall i :: 0 <= i < |steps| ==> steps[i].id in stepBeads
    ensures created == if AllResolvable(stepBeads, steps) then Some(StepEvents(stepBeads, rig, steps)) else None
  {
    var events: seq<Event> := [];
    for i := 0 to |steps|
      invariant |events| == i
      invariant forall j :: 0 <= j < i ==> Resolvable(stepBeads, steps[j].needs)
      invariant forall j :: 0 <= j < i ==>
          events[j] == BeadCreated(stepBeads[steps[j].id], rig, Resolve(stepBeads, steps[j].needs))
    {
      var needs := ResolveNeeds(stepBeads, steps[i]);
      if needs == None {
        return None;
      }
      events := events + [BeadCreated(stepBeads[steps[i].id], rig, needs.value)];
    }
    assert events == StepEvents(stepBeads, rig, steps);
    return Some(events);
  }

  method RootNeeds(stepBeads: map<string, Id>, prefix: string, first: nat, steps: seq<Step>) returns (needs: seq<Id>)
    ensures needs == HeldBeads(stepBeads, prefix, first, steps, |steps|)
  {
    needs := [];
    for i := 0 to |steps|
      invariant needs == HeldBeads(stepBeads, prefix, first, steps, i)
    {
      var bead := FormatId(prefix, first + i);
      if steps[i].id in stepBeads && stepBeads[steps[i].id] == bead {
        needs := needs + [bead];
      }
    }
  }

  /** Resolve every edge, then append the root and the steps in one batch. */
  method WriteRun(ledger: Ledger, root: Id, rig: string, rootNeeds: seq<Id>, stepBeads: map<string, Id>,
                  steps: seq<Step>)
    returns (r: Result<RunContext, CookError>)
    requires forall i :: 0 <= i < |steps| ==> steps[i].id in stepBeads
    modifies ledger
    ensures match Written(old(ledger.View()), root, rig, rootNeeds, stepBeads, steps)
            case Ok((after, ctx)) => r == Ok(ctx) && ledger.View() == after
            case Err(e) => r == Err(e) && ledger.View() == old(ledger.View())
  {
    var created := StepBatch(stepBeads, rig, steps);
    if created == None {
      return Err(UnknownStep);
    }
    var done := ledger.AppendBatch([BeadCreated(root, rig, rootNeeds)] + created.value);
    if done.Err? {
      return Err(Rejected(done.error));
    }
    return Ok(ContextOf(root, steps, stepBeads));
  }

  /** Cook against the mutable ledger: the computed effect on success, nothing on failure. */
  method CookRun(ledger: Ledger, prefix: string, rig: string, steps: seq<Step>, extraRootNeeds: seq<Id>)
    returns (r: Result<RunContext, CookError>)
    modifies ledger
    ensures match Cooked(old(ledger.View()), prefix, rig, steps, extraRootNeeds)
            case Ok((after, ctx)) => r == Ok(ctx) && ledger.View() == after
            case Err(e) => r == Err(e) && ledger.View() == old(ledger.View())
  {
    if steps == [] {
      return Err(NoSteps);
    }
    var next := NextBeadId(ledger.counters, prefix);
    if next.Err? {
      return Err(NoIds(next.error));
    }
    var n := High(ledger.counters, prefix) + 1;
    if n + |steps| > I64_MAX {
      return Err(NoIds(Overflow));
    }
    var stepBeads := NumberSteps(prefix, n + 1, steps);
    StepBeadsKeys(prefix, n + 1, steps, |steps|);
    var rootNeeds := RootNeeds(stepBeads, prefix, n + 1, steps);
    r := WriteRun(ledger, next.value, rig, rootNeeds + extraRootNeeds, stepBeads, steps);
  }

  // ---- a batch of fresh creations goes through ---------------------------

  ghost predicate Creatable(beads: Beads, events: seq<Event>) {
    && (forall i :: 0 <= i < |events| ==>
          && events[i].BeadCreated? && events[i].id !in beads
          && NoDuplicates(events[i].needs) && ParseBeadId(events[i].id).Some?)
    && (forall i, j :: 0 <= i < j < |events| ==> events[i].id != events[j].id)
  }

  lemma {:induction false} FreshBatchApplies(t: Tables, events: seq<Event>)
    requires Creatable(t.beads, events)
    ensures ApplyBatch(t, events).Ok?
    ensures forall b :: b in t.beads ==>
        b in ApplyBatch(t, events).value.beads && ApplyBatch(t, events).value.beads[b] == t.beads[b]
    ensures forall i :: 0 <= i < |events| ==> CreatedAs(ApplyBatch(t, events).value.beads, events[i])
    decreases events
  {
    if events != [] {
      var next := Apply(t, events[0]).value;
      RestIsCreatable(t, events);
      FreshBatchApplies(next, events[1..]);
      var after := ApplyBatch(t, events).value.beads;
      forall i | 0 <= i < |events|
        ensures CreatedAs(after, events[i])
      {
        if i > 0 {
          assert events[i] == events[1..][i - 1];
        } else {
          assert events[0].id in next.beads;
        }
      }
    }
  }

  ghost predicate CreatedAs(after: Beads, e: Event) {
    e.BeadCreated? && e.id in after && after[e.id] == NewBead(e.rig, set n | n in e.needs)
  }

  lemma RestIsCreatable(t: Tables, events: seq<Event>)
    requires Creatable(t.beads, events) && events != []
    ensures Apply(t, events[0]).Ok? && Creatable(Apply(t, events[0]).value.beads, events[1..])
    ensures events[0].id in Apply(t, events[0]).value.beads
    ensures CreatedAs(Apply(t, events[0]).value.beads, events[0])
  {
    var rest := events[1..];
    assert forall i :: 0 <= i < |rest| ==> rest[i] == events[i + 1];
    forall i | 0 <= i < |rest|
      ensures rest[i].id != events[0].id
    {
      assert events[0].id != events[i + 1].id;
    }
  }

  // ---- a validated formula cooks into an intact run -----------------------

  /** The step list that assembly makes of a violation-free raw list. */
  function Assemble(raw: seq<Validate.RawStep>): seq<Step> {
    seq(|raw|, i requires 0 <= i < |raw| =>
      Step(if raw[i].id.Some? then raw[i].id.value else "", raw[i].needs))
  }

  ghost predicate DistinctIds(steps: seq<Step>) {
    forall i, j :: 0 <= i < j < |steps| ==> steps[i].id != steps[j].id
  }

  lemma {:induction false} StepBeadsAt(prefix: string, first: nat, steps: seq<Step>, k: nat)
    requires k <= |steps| && DistinctIds(steps)
    ensures forall i :: 0 <= i < k ==>
        var m := StepBeads(prefix, first, steps, k);
        steps[i].id in m && m[steps[i].id] == FormatId(prefix, first + i)
    ensures forall id :: id in StepBeads(prefix, first, steps, k) ==> exists i :: 0 <= i < k && steps[i].id == id
  {
    if k > 0 {
      StepBeadsAt(prefix, first, steps, k - 1);
    }
  }

  lemma {:induction false} HeldBeadsAt(prefix: string, first: nat, steps: seq<Step>, k: nat)
    requires k <= |steps| && DistinctIds(steps)
    ensures var beads := StepBeads(prefix, first, steps, |steps|);
            var held := HeldBeads(beads, prefix, first, steps, k);
            |held| == k && forall i :: 0 <= i < k ==> steps[i].id in beads && held[i] == beads[steps[i].id]
  {
    if k > 0 {
      HeldBeadsAt(prefix, first, steps, k - 1);
      StepBeadsAt(prefix, first, steps, |steps|);
    }
  }

  ghost function Block(prefix: string, first: nat, count: nat): seq<Id> {
    seq(count, i requires 0 <= i < count => FormatId(prefix, first + i))
  }

  /** Numbers above the counter name beads that do not exist, all of them different. */
  lemma BlockIsFresh(t: Tables, prefix: string, first: nat, count: nat)
    requires TablesOk(t) && ValidPrefix(prefix)
    requires High(t.counters, prefix) < first && first + count <= I64_MAX + 1
    ensures forall i :: 0 <= i < count ==>
        Block(prefix, first, count)[i] !in t.beads && ParseBeadId(Block(prefix, first, count)[i]).Some?
    ensures NoDuplicates(Block(prefix, first, count))
  {
    var block := Block(prefix, first, count);
    forall i | 0 <= i < count
      ensures block[i] !in t.beads && ParseBeadId(block[i]).Some?
    {
      AboveHighIsFresh(t.beads.Keys, t.counters, prefix, first + i);
    }
    forall i, j | 0 <= i < j < count
      ensures block[i] != block[j]
    {
      if block[i] == block[j] {
        FormatInjective(prefix, first + i, first + j);
      }
    }
  }

  /** What cooking relies on beside a well-formed step list: room in the id space, and extra root
      needs that name existing beads once each. */
  ghost predicate CanCook(t: Tables, prefix: string, raw: seq<Validate.RawStep>, extraRootNeeds: seq<Id>) {
    && TablesOk(t) && ValidPrefix(prefix)
    && raw != [] && Validate.WellFormed(raw)
    && High(t.counters, prefix) + 1 + |raw| <= I64_MAX
    && NoDuplicates(extraRootNeeds) && forall x :: x in extraRootNeeds ==> x in t.beads
  }

  /** A root and one bead per step, all of them new, well formed, and different. */
  ghost predicate NewBlock(beads: Beads, root: Id, stepBeads: map<string, Id>, steps: seq<Step>) {
    && root !in beads && ParseBeadId(root).Some?
    && (forall i :: 0 <= i < |steps| ==>
          && steps[i].id in stepBeads
          && stepBeads[steps[i].id] != root && stepBeads[steps[i].id] !in beads
          && ParseBeadId(stepBeads[steps[i].id]).Some?)
    && (forall i, j :: 0 <= i < j < |steps| ==> stepBeads[steps[i].id] != stepBeads[steps[j].id])
    && (forall id :: id in stepBeads ==> exists i :: 0 <= i < |steps| && steps[i].id == id)
  }

  lemma AllocatesNewBlock(t: Tables, prefix: string, steps: seq<Step>)
    requires TablesOk(t) && ValidPrefix(prefix) && DistinctIds(steps)
    requires High(t.counters, prefix) + 1 + |steps| <= I64_MAX
    ensures var n := High(t.counters, prefix) + 1;
            NewBlock(t.beads, FormatId(prefix, n), StepBeads(prefix, n + 1, steps, |steps|), steps)
  {
    var n := High(t.counters, prefix) + 1;
    BlockIsFresh(t, prefix, n, |steps| + 1);
    BlockIsNew(t.beads, prefix, n, steps, Block(prefix, n, |steps| + 1));
  }

  lemma BlockIsNew(beads: Beads, prefix: string, n: nat, steps: seq<Step>, block: seq<Id>)
    requires DistinctIds(steps) && block == Block(prefix, n, |steps| + 1) && NoDuplicates(block)
    requires forall i :: 0 <= i < |block| ==> block[i] !in beads && ParseBeadId(block[i]).Some?
    ensures NewBlock(beads, FormatId(prefix, n), StepBeads(prefix, n + 1, steps, |steps|), steps)
  {
    var m := StepBeads(prefix, n + 1, steps, |steps|);
    MapFollowsBlock(prefix, n, steps);
    assert block[0] == FormatId(prefix, n);
    assert forall id :: id in m ==> exists i :: 0 <= i < |steps| && steps[i].id == id by {
      StepBeadsAt(prefix, n + 1, steps, |steps|);
    }
    NumberedBlock(beads, block, m, steps);
  }

  lemma MapFollowsBlock(prefix: string, n: nat, steps: seq<Step>)
    requires DistinctIds(steps)
    ensures var m := StepBeads(prefix, n + 1, steps, |steps|);
            forall i :: 0 <= i < |steps| ==> steps[i].id in m && m[steps[i].id] == Block(prefix, n, |steps| + 1)[i + 1]
  {
    StepBeadsAt(prefix, n + 1, steps, |steps|);
    var block, m := Block(prefix, n, |steps| + 1), StepBeads(prefix, n + 1, steps, |steps|);
    forall i | 0 <= i < |steps|
      ensures steps[i].id in m && m[steps[i].id] == block[i + 1]
    {
      assert n + 1 + i == n + (i + 1);
    }
  }

  lemma NumberedBlock(beads: Beads, block: seq<Id>, stepBeads: map<string, Id>, steps: seq<Step>)
    requires |block| == |steps| + 1 && NoDuplicates(block)
    requires forall i :: 0 <= i < |block| ==> block[i] !in beads && ParseBeadId(block[i]).Some?
    requires forall i :: 0 <= i < |steps| ==> steps[i].id in stepBeads && stepBeads[steps[i].id] == block[i + 1]
    requires forall id :: id in stepBeads ==> exists i :: 0 <= i < |steps| && steps[i].id == id
    ensures NewBlock(beads, block[0], stepBeads, steps)
  {
  }

  /** Every need of a well-formed list resolves to the bead of a step of the list. */
  lemma NeedsResolve(raw: seq<Validate.RawStep>, beads: Beads, root: Id, stepBeads: map<string, Id>)
    requires Validate.WellFormed(raw) && NewBlock(beads, root, stepBeads, Assemble(raw))
    ensures AllResolvable(stepBeads, Assemble(raw))
    ensures forall i :: 0 <= i < |raw| ==> NoDuplicates(Resolve(stepBeads, Assemble(raw)[i].needs))
  {
    var steps := Assemble(raw);
    forall i, n | 0 <= i < |steps| && n in steps[i].needs
      ensures n in stepBeads
    {
      assert Validate.GoodNeeds(raw, i);
      var j :| 0 <= j < |raw| && raw[j].id.Some? && raw[j].id.value == n;
      assert steps[j].id == n;
    }
    forall i | 0 <= i < |raw|
      ensures NoDuplicates(Resolve(stepBeads, steps[i].needs))
    {
      assert Validate.GoodNeeds(raw, i);
      ResolveDistinct(beads, root, stepBeads, steps, steps[i].needs);
    }
  }

  lemma ResolveDistinct(beads: Beads, root: Id, stepBeads: map<string, Id>, steps: seq<Step>, needs: seq<string>)
    requires NewBlock(beads, root, stepBeads, steps) && Resolvable(stepBeads, needs) && NoDuplicates(needs)
    ensures NoDuplicates(Resolve(stepBeads, needs))
  {
    forall j, k | 0 <= j < k < |needs|
      ensures stepBeads[needs[j]] != stepBeads[needs[k]]
    {
      assert needs[j] in needs && needs[k] in needs;
      var a :| 0 <= a < |steps| && steps[a].id == needs[j];
      var b :| 0 <= b < |steps| && steps[b].id == needs[k];
    }
  }

  lemma DistinctAssembled(raw: seq<Validate.RawStep>)
    requires Validate.WellFormed(raw)
    ensures DistinctIds(Assemble(raw))
  {
    forall i, j | 0 <= i < j < |raw|
      ensures Assemble(raw)[i].id != Assemble(raw)[j].id
    {
      assert raw[i].id != raw[j].id;
    }
  }

  /** A root's creation and one per step, in order. */
  ghost predicate BatchOf(events: seq<Event>, root: Id, rig: string, rootNeeds: seq<Id>, stepBeads: map<string, Id>,
                          steps: seq<Step>)
    requires AllResolvable(stepBeads, steps)
  {
    && |events| == |steps| + 1 && events[0] == BeadCreated(root, rig, rootNeeds)
    && forall i :: 1 <= i < |events| ==>
         events[i] == BeadCreated(stepBeads[steps[i - 1].id], rig, Resolve(stepBeads, steps[i - 1].needs))
  }

  lemma BatchEntries(root: Id, rig: string, rootNeeds: seq<Id>, stepBeads: map<string, Id>, steps: seq<Step>)
    requires AllResolvable(stepBeads, steps)
    ensures BatchOf([BeadCreated(root, rig, rootNeeds)] + StepEvents(stepBeads, rig, steps), root, rig, rootNeeds,
                    stepBeads, steps)
  {
    var events := StepEvents(stepBeads, rig, steps);
    var batch := [BeadCreated(root, rig, rootNeeds)] + events;
    forall i | 1 <= i < |batch|
      ensures batch[i] == BeadCreated(stepBeads[steps[i - 1].id], rig, Resolve(stepBeads, steps[i - 1].needs))
    {
      assert batch[i] == events[i - 1];
    }
  }

  lemma EntriesAreNew(batch: seq<Event>, beads: Beads, root: Id, rig: string, rootNeeds: seq<Id>,
                      stepBeads: map<string, Id>, steps: seq<Step>, i: nat)
    requires NewBlock(beads, root, stepBeads, steps) && AllResolvable(stepBeads, steps) && NoDuplicates(rootNeeds)
    requires forall i :: 0 <= i < |steps| ==> NoDuplicates(Resolve(stepBeads, steps[i].needs))
    requires BatchOf(batch, root, rig, rootNeeds, stepBeads, steps) && i < |batch|
    ensures batch[i].BeadCreated? && batch[i].id !in beads
    ensures NoDuplicates(batch[i].needs) && ParseBeadId(batch[i].id).Some?
  {
    if i > 0 {
      assert batch[i] == BeadCreated(stepBeads[steps[i - 1].id], rig, Resolve(stepBeads, steps[i - 1].needs));
    }
  }

  lemma EntriesDiffer(batch: seq<Event>, beads: Beads, root: Id, rig: string, rootNeeds: seq<Id>,
                      stepBeads: map<string, Id>, steps: seq<Step>, i: nat, j: nat)
    requires NewBlock(beads, root, stepBeads, steps) && AllResolvable(stepBeads, steps)
    requires BatchOf(batch, root, rig, rootNeeds, stepBeads, steps) && i < j < |batch|
    ensures batch[i].BeadCreated? && batch[j].BeadCreated? && batch[i].id != batch[j].id
  {
    assert batch[j] == BeadCreated(stepBeads[steps[j - 1].id], rig, Resolve(stepBeads, steps[j - 1].needs));
    if i > 0 {
      assert batch[i] == BeadCreated(stepBeads[steps[i - 1].id], rig, Resolve(stepBeads, steps[i - 1].needs));
      assert stepBeads[steps[i - 1].id] != stepBeads[steps[j - 1].id];
    }
  }

  /** The root's needs and the steps' creations make a batch the ledger accepts. */
  lemma BatchIsCreatable(beads: Beads, root: Id, rig: string, rootNeeds: seq<Id>, stepBeads: map<string, Id>,
                         steps: seq<Step>)
    requires NewBlock(beads, root, stepBeads, steps) && AllResolvable(stepBeads, steps) && NoDuplicates(rootNeeds)
    requires forall i :: 0 <= i < |steps| ==> NoDuplicates(Resolve(stepBeads, steps[i].needs))
    ensures Creatable(beads, [BeadCreated(root, rig, rootNeeds)] + StepEvents(stepBeads, rig, steps))
  {
    var batch := [BeadCreated(root, rig, rootNeeds)] + StepEvents(stepBeads, rig, steps);
    BatchEntries(root, rig, rootNeeds, stepBeads, steps);
    forall i | 0 <= i < |batch|
      ensures batch[i].BeadCreated? && batch[i].id !in beads
      ensures NoDuplicates(batch[i].needs) && ParseBeadId(batch[i].id).Some?
    {
      EntriesAreNew(batch, beads, root, rig, rootNeeds, stepBeads, steps, i);
    }
    forall i, j | 0 <= i < j < |batch|
      ensures batch[i].id != batch[j].id
    {
      EntriesDiffer(batch, beads, root, rig, rootNeeds, stepBeads, steps, i, j);
    }
  }

  // ---- the edges written are the validated ones ---------------------------

  lemma {:induction false} EdgesOfAt(raw: seq<Validate.RawStep>, k: nat)
    requires k <= |raw|
    requires forall i :: 0 <= i < |raw| ==> raw[i].id.Some?
    requires forall i, j :: 0 <= i < j < |raw| ==> raw[i].id != raw[j].id
    ensures forall i :: 0 <= i < k ==>
        raw[i].id.value in Validate.EdgesOf(raw[..k]) && Validate.EdgesOf(raw[..k])[raw[i].id.value] == raw[i].needs
  {
    if k > 0 {
      EdgesOfAt(raw, k - 1);
      assert raw[..k][..k - 1] == raw[..k - 1];
    }
  }

  lemma StepEdge(raw: seq<Validate.RawStep>, i: nat, n: string)
    requires Validate.ClosedUnderNeeds(raw) && i < |raw| && n in raw[i].needs
    ensures Edge(Validate.NeedsOf(Validate.EdgesOf(raw)), raw[i].id.value, n)
  {
    assert Validate.GoodNeeds(raw, i);
    var j :| 0 <= j < |raw| && raw[j].id.Some? && raw[j].id.value == n;
    EdgesOfAt(raw, |raw|);
    assert raw[..|raw|] == raw;
  }

  ghost predicate CarriesStep(raw: seq<Validate.RawStep>, beads: Beads, ctx: RunContext, i: nat)
    requires ValidContext(ctx) && |ctx.steps| == |raw| && i < |raw|
  {
    var a := ctx.anchors[ctx.steps[i]];
    && raw[i].id == Some(ctx.steps[i])
    && a in beads && beads[a].status == Open
    && (forall n :: n in raw[i].needs ==> n in ctx.anchors)
    && beads[a].needs == set n | n in raw[i].needs :: ctx.anchors[n]
  }

  /** The anchors carry the steps' needs, anchor for step. */
  ghost predicate CarriesNeeds(raw: seq<Validate.RawStep>, beads: Beads, ctx: RunContext) {
    && ValidContext(ctx) && |ctx.steps| == |raw|
    && (forall i :: 0 <= i < |raw| ==> CarriesStep(raw, beads, ctx, i))
    && (forall i, j :: 0 <= i < j < |raw| ==> ctx.anchors[ctx.steps[i]] != ctx.anchors[ctx.steps[j]])
  }

  lemma SameAnchorSameStep(raw: seq<Validate.RawStep>, beads: Beads, ctx: RunContext, s: string, t: string)
    requires CarriesNeeds(raw, beads, ctx) && s in ctx.steps && t in ctx.steps && ctx.anchors[s] == ctx.anchors[t]
    ensures s == t
  {
    var i :| 0 <= i < |ctx.steps| && ctx.steps[i] == s;
    var j :| 0 <= j < |ctx.steps| && ctx.steps[j] == t;
  }

  lemma NeedsAreSteps(raw: seq<Validate.RawStep>, beads: Beads, ctx: RunContext, i: nat, n: string)
    requires Validate.ClosedUnderNeeds(raw) && CarriesNeeds(raw, beads, ctx) && i < |raw| && n in raw[i].needs
    ensures n in ctx.steps
  {
    assert Validate.GoodNeeds(raw, i);
    var j :| 0 <= j < |raw| && raw[j].id.Some? && raw[j].id.value == n;
    assert CarriesStep(raw, beads, ctx, j);
  }

  ghost predicate StepOf(ctx: RunContext, a: Id, s: string) {
    s in ctx.steps && s in ctx.anchors && ctx.anchors[s] == a
  }

  lemma {:induction false} AnchorPathIsStepPath(raw: seq<Validate.RawStep>, beads: Beads, ctx: RunContext, p: seq<Id>)
    returns (q: seq<string>)
    requires Validate.ClosedUnderNeeds(raw) && CarriesNeeds(raw, beads, ctx)
    requires IsPath(AnchorGraph(beads, ctx), p) && p[|p| - 1] in AnchorSet(ctx)
    ensures |q| == |p| && IsPath(Validate.NeedsOf(Validate.EdgesOf(raw)), q)
    ensures StepOf(ctx, p[0], q[0]) && StepOf(ctx, p[|p| - 1], q[|q| - 1])
    decreases |p|
  {
    var g := Validate.NeedsOf(Validate.EdgesOf(raw));
    if |p| == 1 {
      var s :| s in ctx.steps && ctx.anchors[s] == p[0];
      return [s];
    }
    PathTail(AnchorGraph(beads, ctx), p, 1);
    var rest := AnchorPathIsStepPath(raw, beads, ctx, p[1..]);
    assert Hop(AnchorGraph(beads, ctx), p, 0);
    var s := StepBehindEdge(raw, beads, ctx, p[0], p[1], rest[0]);
    PathJoin(g, [s], rest);
    return [s] + rest;
  }

  lemma StepBehindEdge(raw: seq<Validate.RawStep>, beads: Beads, ctx: RunContext, a: Id, b: Id, t: string)
    returns (s: string)
    requires Validate.ClosedUnderNeeds(raw) && CarriesNeeds(raw, beads, ctx)
    requires Edge(AnchorGraph(beads, ctx), a, b) && StepOf(ctx, b, t)
    ensures StepOf(ctx, a, s) && Edge(Validate.NeedsOf(Validate.EdgesOf(raw)), s, t)
  {
    s :| s in ctx.steps && ctx.anchors[s] == a;
    var i :| 0 <= i < |raw| && ctx.steps[i] == s;
    assert CarriesStep(raw, beads, ctx, i);
    var n :| n in raw[i].needs && ctx.anchors[n] == b;
    NeedsAreSteps(raw, beads, ctx, i, n);
    SameAnchorSameStep(raw, beads, ctx, n, t);
    StepEdge(raw, i, n);
  }

  lemma AnchorCycleIsStepCycle(raw: seq<Validate.RawStep>, beads: Beads, ctx: RunContext, p: seq<Id>)
    returns (q: seq<string>)
    requires Validate.ClosedUnderNeeds(raw) && CarriesNeeds(raw, beads, ctx)
    requires IsCycle(AnchorGraph(beads, ctx), p)
    ensures IsCycle(Validate.NeedsOf(Validate.EdgesOf(raw)), q)
  {
    assert Hop(AnchorGraph(beads, ctx), p, 0);
    q := AnchorPathIsStepPath(raw, beads, ctx, p);
    SameAnchorSameStep(raw, beads, ctx, q[0], q[|q| - 1]);
  }

  lemma AnchorsAcyclic(raw: seq<Validate.RawStep>, beads: Beads, ctx: RunContext)
    requires Validate.WellFormed(raw) && CarriesNeeds(raw, beads, ctx)
    ensures Acyclic(AnchorGraph(beads, ctx))
  {
    if p :| IsCycle(AnchorGraph(beads, ctx), p) {
      var q := AnchorCycleIsStepCycle(raw, beads, ctx, p);
    }
  }

  lemma AnchorSetIs(root: Id, steps: seq<Step>, stepBeads: map<string, Id>)
    requires forall i :: 0 <= i < |steps| ==> steps[i].id in stepBeads
    ensures var ctx := ContextOf(root, steps, stepBeads);
            ValidContext(ctx) && AnchorSet(ctx) == set i | 0 <= i < |steps| :: stepBeads[steps[i].id]
  {
    var ctx := ContextOf(root, steps, stepBeads);
    forall x | x in AnchorSet(ctx)
      ensures x in (set i | 0 <= i < |steps| :: stepBeads[steps[i].id])
    {
      var s :| s in ctx.steps && ctx.anchors[s] == x;
      var i :| 0 <= i < |steps| && ctx.steps[i] == s;
    }
    forall i | 0 <= i < |steps|
      ensures stepBeads[steps[i].id] in AnchorSet(ctx)
    {
      assert ctx.steps[i] == steps[i].id;
    }
  }

  /** A fresh run: every anchor open with its step's needs, the root open and waiting for all of
      them, and every older bead as it was. */
  ghost predicate FreshRun(before: Beads, after: Beads, raw: seq<Validate.RawStep>, ctx: RunContext,
                           extraRootNeeds: seq<Id>)
  {
    && (forall b :: b in before ==> b in after && after[b] == before[b])
    && CarriesNeeds(raw, after, ctx)
    && RunIntact(after, ctx)
    && ctx.root !in before && after[ctx.root].status == Open
    && after[ctx.root].needs == AnchorSet(ctx) + Elements(extraRootNeeds)
  }

  lemma BatchMakesFreshRun(t: Tables, root: Id, rig: string, rootNeeds: seq<Id>, stepBeads: map<string, Id>,
                           raw: seq<Validate.RawStep>, extraRootNeeds: seq<Id>)
    requires Validate.WellFormed(raw) && NewBlock(t.beads, root, stepBeads, Assemble(raw))
    requires NoDuplicates(rootNeeds)
    requires Elements(rootNeeds) ==
        (set i | 0 <= i < |Assemble(raw)| :: stepBeads[Assemble(raw)[i].id]) + Elements(extraRootNeeds)
    ensures match Written(t, root, rig, rootNeeds, stepBeads, Assemble(raw))
            case Ok((after, ctx)) => FreshRun(t.beads, after.beads, raw, ctx, extraRootNeeds)
            case Err(_) => false
  {
    var steps := Assemble(raw);
    NeedsResolve(raw, t.beads, root, stepBeads);
    BatchIsCreatable(t.beads, root, rig, rootNeeds, stepBeads, steps);
    BatchCreates(t, root, rig, rootNeeds, stepBeads, steps);
    var after := ApplyBatch(t, [BeadCreated(root, rig, rootNeeds)] + StepEvents(stepBeads, rig, steps)).value.beads;
    BatchMakesRun(t.beads, after, root, rig, stepBeads, raw);
    AnchorSetIs(root, steps, stepBeads);
    assert (set x | x in rootNeeds) == Elements(rootNeeds);
  }

  lemma CookedWrites(t: Tables, prefix: string, rig: string, steps: seq<Step>, extraRootNeeds: seq<Id>)
    requires steps != [] && ValidPrefix(prefix) && High(t.counters, prefix) + 1 + |steps| <= I64_MAX
    ensures var n := High(t.counters, prefix) + 1;
            var stepBeads := StepBeads(prefix, n + 1, steps, |steps|);
            Cooked(t, prefix, rig, steps, extraRootNeeds) ==
            Written(t, FormatId(prefix, n), rig,
                    HeldBeads(stepBeads, prefix, n + 1, steps, |steps|) + extraRootNeeds, stepBeads, steps)
  {
  }

  /** A validated formula cooks, given room in the id space, into a fresh intact run. */
  lemma ValidatedFormulaCooks(t: Tables, prefix: string, rig: string, raw: seq<Validate.RawStep>,
                              extraRootNeeds: seq<Id>)
    requires CanCook(t, prefix, raw, extraRootNeeds)
    ensures match Cooked(t, prefix, rig, Assemble(raw), extraRootNeeds)
            case Ok((after, ctx)) => FreshRun(t.beads, after.beads, raw, ctx, extraRootNeeds)
            case Err(_) => false
  {
    var n, steps := High(t.counters, prefix) + 1, Assemble(raw);
    var root, stepBeads := FormatId(prefix, n), StepBeads(prefix, n + 1, steps, |steps|);
    var held := HeldBeads(stepBeads, prefix, n + 1, steps, |steps|);
    DistinctAssembled(raw);
    assert NewBlock(t.beads, root, stepBeads, steps) by {
      AllocatesNewBlock(t, prefix, steps);
    }
    assert NoDuplicates(held + extraRootNeeds) && Elements(held + extraRootNeeds) ==
        (set i | 0 <= i < |steps| :: stepBeads[steps[i].id]) + Elements(extraRootNeeds) by {
      RootNeedsOf(t, prefix, root, steps, extraRootNeeds);
    }
    BatchMakesFreshRun(t, root, rig, held + extraRootNeeds, stepBeads, raw, extraRootNeeds);
    CookedWrites(t, prefix, rig, steps, extraRootNeeds);
  }

  /** What the batch leaves in the tables. */
  lemma BatchCreates(t: Tables, root: Id, rig: string, rootNeeds: seq<Id>, stepBeads: map<string, Id>, steps: seq<Step>)
    requires AllResolvable(stepBeads, steps)
    requires Creatable(t.beads, [BeadCreated(root, rig, rootNeeds)] + StepEvents(stepBeads, rig, steps))
    ensures var r := ApplyBatch(t, [BeadCreated(root, rig, rootNeeds)] + StepEvents(stepBeads, rig, steps));
            && r.Ok?
            && var after := r.value.beads;
            && (forall b :: b in t.beads ==> b in after && after[b] == t.beads[b])
            && root in after && after[root] == NewBead(rig, set x | x in rootNeeds)
            && forall i :: 0 <= i < |steps| ==>
                 var id := stepBeads[steps[i].id];
                 id in after && after[id] == NewBead(rig, set n | n in Resolve(stepBeads, steps[i].needs))
  {
    var events := StepEvents(stepBeads, rig, steps);
    var batch := [BeadCreated(root, rig, rootNeeds)] + events;
    FreshBatchApplies(t, batch);
    var after := ApplyBatch(t, batch).value.beads;
    assert batch[0].id == root && batch[0].id in after;
    forall i | 0 <= i < |steps|
      ensures var id := stepBeads[steps[i].id];
              id in after && after[id] == NewBead(rig, set n | n in Resolve(stepBeads, steps[i].needs))
    {
      assert batch[i + 1] == events[i];
      assert batch[i + 1].id in after;
    }
  }

  lemma RootNeedsOf(t: Tables, prefix: string, root: Id, steps: seq<Step>, extraRootNeeds: seq<Id>)
    requires DistinctIds(steps)
    requires NoDuplicates(extraRootNeeds) && forall x :: x in extraRootNeeds ==> x in t.beads
    requires var n := High(t.counters, prefix) + 1;
             NewBlock(t.beads, root, StepBeads(prefix, n + 1, steps, |steps|), steps)
    ensures var n := High(t.counters, prefix) + 1;
            var stepBeads := StepBeads(prefix, n + 1, steps, |steps|);
            var needs := HeldBeads(stepBeads, prefix, n + 1, steps, |steps|) + extraRootNeeds;
            && NoDuplicates(needs)
            && Elements(needs) == (set i | 0 <= i < |steps| :: stepBeads[steps[i].id]) + Elements(extraRootNeeds)
  {
    var n := High(t.counters, prefix) + 1;
    var stepBeads := StepBeads(prefix, n + 1, steps, |steps|);
    HeldBeadsAt(prefix, n + 1, steps, |steps|);
    HeldAndExtra(t.beads, root, stepBeads, steps, HeldBeads(stepBeads, prefix, n + 1, steps, |steps|), extraRootNeeds);
  }

  lemma HeldAndExtra(beads: Beads, root: Id, stepBeads: map<string, Id>, steps: seq<Step>, held: seq<Id>,
                     extra: seq<Id>)
    requires NewBlock(beads, root, stepBeads, steps)
    requires |held| == |steps| && forall i :: 0 <= i < |held| ==> held[i] == stepBeads[steps[i].id]
    requires NoDuplicates(extra) && forall x :: x in extra ==> x in beads
    ensures NoDuplicates(held + extra)
    ensures Elements(held + extra) == (set i | 0 <= i < |steps| :: stepBeads[steps[i].id]) + Elements(extra)
  {
    forall i | 0 <= i < |extra|
      ensures extra[i] in beads
    {
    }
    assert Elements(held + extra) == Elements(held) + Elements(extra);
    assert Elements(held) == set i | 0 <= i < |steps| :: stepBeads[steps[i].id];
  }

  lemma BatchMakesRun(before: Beads, after: Beads, root: Id, rig: string, stepBeads: map<string, Id>,
                      raw: seq<Validate.RawStep>)
    requires Validate.WellFormed(raw) && NewBlock(before, root, stepBeads, Assemble(raw))
    requires AllResolvable(stepBeads, Assemble(raw))
    requires root in after
    requires forall i :: 0 <= i < |raw| ==>
        var id := stepBeads[Assemble(raw)[i].id];
        && id in after
        && after[id] == NewBead(rig, set n | n in Resolve(stepBeads, Assemble(raw)[i].needs))
    ensures var ctx := ContextOf(root, Assemble(raw), stepBeads);
            CarriesNeeds(raw, after, ctx) && RunIntact(after, ctx)
  {
    var steps := Assemble(raw);
    var ctx := ContextOf(root, steps, stepBeads);
    forall i | 0 <= i < |raw|
      ensures ctx.steps[i] in ctx.anchors && CarriesStep(raw, after, ctx, i)
    {
      ResolveIsImage(stepBeads, steps[i].needs);
    }
    AnchorsAcyclic(raw, after, ctx);
    AnchorsStayInside(raw, after, ctx);
  }

  lemma AnchorsStayInside(raw: seq<Validate.RawStep>, beads: Beads, ctx: RunContext)
    requires Validate.WellFormed(raw) && CarriesNeeds(raw, beads, ctx)
    ensures forall a :: a in AnchorSet(ctx) ==> a in beads && beads[a].needs <= AnchorSet(ctx)
  {
    forall a | a in AnchorSet(ctx)
      ensures a in beads && beads[a].needs <= AnchorSet(ctx)
    {
      var s :| s in ctx.steps && ctx.anchors[s] == a;
      var i :| 0 <= i < |raw| && ctx.steps[i] == s;
      assert CarriesStep(raw, beads, ctx, i);
      forall n | n in raw[i].needs
        ensures ctx.anchors[n] in AnchorSet(ctx)
      {
        NeedsAreSteps(raw, beads, ctx, i, n);
      }
    }
  }

  lemma ResolveIsImage(stepBeads: map<string, Id>, needs: seq<string>)
    requires Resolvable(stepBeads, needs)
    ensures (set n | n in Resolve(stepBeads, needs)) == set n | n in needs :: stepBeads[n]
  {
    var r := Resolve(stepBeads, needs);
    forall n | n in needs
      ensures stepBeads[n] in r
    {
      var i :| 0 <= i < |needs| && needs[i] == n;
      assert r[i] == stepBeads[n];
    }
  }

  /** Cooking another run is no breach of discipline on any group of beads. */
  lemma CookingIsDisciplined(t: Tables, group: set<Id>, root: Id, rig: string, rootNeeds: seq<Id>,
                             stepBeads: map<string, Id>, steps: seq<Step>)
    requires AllResolvable(stepBeads, steps)
    ensures DisciplinedHistory(t, group, [BeadCreated(root, rig, rootNeeds)] + StepEvents(stepBeads, rig, steps))
  {
    ElsewhereIsDisciplined(t, group, [BeadCreated(root, rig, rootNeeds)] + StepEvents(stepBeads, rig, steps));
  }

  // ---- exactly when cooking succeeds, and with which beads ---------------

  predicate CreatesAt(events: seq<Event>, i: int, b: Id) {
    0 <= i < |events| && events[i].BeadCreated? && events[i].id == b
  }

  ghost predicate Created(events: seq<Event>, b: Id) {
    exists i :: CreatesAt(events, i, b)
  }

  lemma CreatedSplits(events: seq<Event>, b: Id)
    requires events != [] && events[0].BeadCreated?
    ensures Created(events, b) <==> b == events[0].id || Created(events[1..], b)
  {
    var rest := events[1..];
    if i :| CreatesAt(events, i, b) && i > 0 {
      assert CreatesAt(rest, i - 1, b);
    }
    if i :| CreatesAt(rest, i, b) {
      assert CreatesAt(events, i + 1, b);
    }
    assert b == events[0].id ==> CreatesAt(events, 0, b);
  }

  lemma CreatableSplits(before: Beads, after: Beads, events: seq<Event>)
    requires events != [] && events[0].BeadCreated? && after.Keys == before.Keys + {events[0].id}
    requires events[0].id !in before && NoDuplicates(events[0].needs) && ParseBeadId(events[0].id).Some?
    ensures Creatable(before, events) <==> Creatable(after, events[1..])
  {
    var rest := events[1..];
    assert forall i :: 0 <= i < |rest| ==> rest[i] == events[i + 1];
    if Creatable(after, rest) {
      forall i | 0 <= i < |events|
        ensures events[i].BeadCreated? && events[i].id !in before && NoDuplicates(events[i].needs)
        ensures ParseBeadId(events[i].id).Some? && (i > 0 ==> events[i].id != events[0].id)
      {
        assert i > 0 ==> rest[i - 1].id !in after;
      }
      forall i, j | 0 <= i < j < |events|
        ensures events[i].id != events[j].id
      {
        assert i > 0 ==> rest[i - 1].id != rest[j - 1].id;
      }
    }
    if Creatable(before, events) {
      forall i | 0 <= i < |rest|
        ensures rest[i].id !in after
      {
        assert events[0].id != events[i + 1].id;
      }
    }
  }

  /** A batch of creations goes through exactly when each bead is new, well formed, needs nothing twice,
      and is created once. */
  lemma {:induction false} BatchIsExact(t: Tables, events: seq<Event>)
    requires forall i :: 0 <= i < |events| ==> events[i].BeadCreated?
    ensures ApplyBatch(t, events).Ok? <==> Creatable(t.beads, events)
    decreases events
  {
    if events != [] {
      var e := events[0];
      CreationMeans(t, e.id, e.rig, e.needs);
      match Apply(t, e)
      case Err(_) =>
      case Ok(next) =>
        assert forall i :: 0 <= i < |events[1..]| ==> events[1..][i] == events[i + 1];
        BatchIsExact(next, events[1..]);
        CreatableSplits(t.beads, next.beads, events);
    }
  }

  /** The beads are then the old ones and these. */
  lemma {:induction false} BatchAdds(t: Tables, events: seq<Event>, b: Id)
    requires (forall i :: 0 <= i < |events| ==> events[i].BeadCreated?) && ApplyBatch(t, events).Ok?
    ensures b in ApplyBatch(t, events).value.beads <==> b in t.beads || Created(events, b)
    decreases events
  {
    if events != [] {
      var e := events[0];
      CreationMeans(t, e.id, e.rig, e.needs);
      assert forall i :: 0 <= i < |events[1..]| ==> events[1..][i] == events[i + 1];
      BatchAdds(Apply(t, e).value, events[1..], b);
      CreatedSplits(events, b);
    }
  }

  /** The beads a run was written with: those of the batch, all in the given rig, and no others. */
  lemma WrittenBeads(t: Tables, root: Id, rig: string, rootNeeds: seq<Id>, stepBeads: map<string, Id>, steps: seq<Step>,
                     b: Id)
    requires AllResolvable(stepBeads, steps)
    requires Creatable(t.beads, [BeadCreated(root, rig, rootNeeds)] + StepEvents(stepBeads, rig, steps))
    ensures match Written(t, root, rig, rootNeeds, stepBeads, steps)
            case Err(_) => false
            case Ok((after, ctx)) =>
              && ctx == ContextOf(root, steps, stepBeads)
              && (b in after.beads <==> b in t.beads || b == root || exists i :: StepBeadAt(stepBeads, steps, i, b))
              && (b in after.beads && b !in t.beads ==> after.beads[b].rig == rig && after.beads[b].claimedBy == None)
  {
    var events := [BeadCreated(root, rig, rootNeeds)] + StepEvents(stepBeads, rig, steps);
    BatchCreates(t, root, rig, rootNeeds, stepBeads, steps);
    BatchAdds(t, events, b);
    if i :| CreatesAt(events, i, b) && i > 0 {
      assert StepBeadAt(stepBeads, steps, i - 1, b);
    }
    if i :| StepBeadAt(stepBeads, steps, i, b) {
      assert CreatesAt(events, i + 1, b);
    }
    assert b == root ==> CreatesAt(events, 0, b);
  }

  ghost predicate StepBeadAt(stepBeads: map<string, Id>, steps: seq<Step>, i: int, b: Id) {
    0 <= i < |steps| && steps[i].id in stepBeads && stepBeads[steps[i].id] == b
  }

  lemma CookedIsWritten(t: Tables, prefix: string, rig: string, raw: seq<Validate.RawStep>, extraRootNeeds: seq<Id>)
    requires CanCook(t, prefix, raw, extraRootNeeds)
    ensures var n, steps := High(t.counters, prefix) + 1, Assemble(raw);
            var root, stepBeads := FormatId(prefix, n), StepBeads(prefix, n + 1, steps, |steps|);
            var rootNeeds := HeldBeads(stepBeads, prefix, n + 1, steps, |steps|) + extraRootNeeds;
            && AllResolvable(stepBeads, steps)
            && Creatable(t.beads, [BeadCreated(root, rig, rootNeeds)] + StepEvents(stepBeads, rig, steps))
            && Cooked(t, prefix, rig, steps, extraRootNeeds) == Written(t, root, rig, rootNeeds, stepBeads, steps)
  {
    var n, steps := High(t.counters, prefix) + 1, Assemble(raw);
    var root, stepBeads := FormatId(prefix, n), StepBeads(prefix, n + 1, steps, |steps|);
    var rootNeeds := HeldBeads(stepBeads, prefix, n + 1, steps, |steps|) + extraRootNeeds;
    DistinctAssembled(raw);
    AllocatesNewBlock(t, prefix, steps);
    assert NoDuplicates(rootNeeds) by {
      RootNeedsOf(t, prefix, root, steps, extraRootNeeds);
    }
    NeedsResolve(raw, t.beads, root, stepBeads);
    BatchIsCreatable(t.beads, root, rig, rootNeeds, stepBeads, steps);
    CookedWrites(t, prefix, rig, steps, extraRootNeeds);
  }

  ghost predicate StepsOfRaw(raw: seq<Validate.RawStep>) {
    DistinctIds(Assemble(raw)) && forall i :: 0 <= i < |raw| ==> raw[i].id == Some(Assemble(raw)[i].id)
  }

  lemma AnchorsAreNumbered(prefix: string, n: nat, raw: seq<Validate.RawStep>, root: Id)
    requires StepsOfRaw(raw)
    ensures var ctx := ContextOf(root, Assemble(raw), StepBeads(prefix, n + 1, Assemble(raw), |raw|));
            |ctx.steps| == |raw| && forall i :: 0 <= i < |raw| ==>
                && raw[i].id == Some(ctx.steps[i]) && ctx.steps[i] in ctx.anchors
                && ctx.anchors[ctx.steps[i]] == FormatId(prefix, n + 1 + i)
  {
    StepBeadsAt(prefix, n + 1, Assemble(raw), |raw|);
  }

  lemma BlockIsRootAndSteps(prefix: string, n: nat, steps: seq<Step>, b: Id)
    requires DistinctIds(steps)
    ensures var stepBeads := StepBeads(prefix, n + 1, steps, |steps|);
            b in Block(prefix, n, |steps| + 1) <==>
            b == FormatId(prefix, n) || exists i :: StepBeadAt(stepBeads, steps, i, b)
  {
    var stepBeads, block := StepBeads(prefix, n + 1, steps, |steps|), Block(prefix, n, |steps| + 1);
    MapFollowsBlock(prefix, n, steps);
    if b in block {
      var k :| 0 <= k < |block| && block[k] == b;
      assert k > 0 ==> StepBeadAt(stepBeads, steps, k - 1, b);
    }
    if i :| StepBeadAt(stepBeads, steps, i, b) {
      assert block[i + 1] == b;
    }
    assert block[0] == FormatId(prefix, n);
  }

  lemma StepsAreRaw(raw: seq<Validate.RawStep>)
    requires Validate.WellFormed(raw)
    ensures StepsOfRaw(raw)
  {
    DistinctAssembled(raw);
  }

  /** The root takes number `n` of the prefix and the steps the next ones, in formula order; the beads are
      the old ones and these, and the new ones are unclaimed and in the given rig. */
  ghost predicate Numbered(t: Tables, after: Tables, ctx: RunContext, prefix: string, n: nat, rig: string,
                           raw: seq<Validate.RawStep>, b: Id)
  {
    && ctx.root == FormatId(prefix, n) && |ctx.steps| == |raw|
    && (forall i :: 0 <= i < |raw| ==>
          && raw[i].id == Some(ctx.steps[i]) && ctx.steps[i] in ctx.anchors
          && ctx.anchors[ctx.steps[i]] == FormatId(prefix, n + 1 + i))
    && (b in after.beads <==> b in t.beads || b in Block(prefix, n, |raw| + 1))
    && (b in after.beads && b !in t.beads ==> after.beads[b].rig == rig && after.beads[b].claimedBy == None)
  }

  lemma {:induction false} WrittenIsNumbered(t: Tables, prefix: string, n: nat, rig: string, rootNeeds: seq<Id>,
                          raw: seq<Validate.RawStep>, b: Id)
    requires StepsOfRaw(raw)
    requires var stepBeads := StepBeads(prefix, n + 1, Assemble(raw), |raw|);
             && AllResolvable(stepBeads, Assemble(raw))
             && Creatable(t.beads, [BeadCreated(FormatId(prefix, n), rig, rootNeeds)] +
                                   StepEvents(stepBeads, rig, Assemble(raw)))
    ensures var r := Written(t, FormatId(prefix, n), rig, rootNeeds, StepBeads(prefix, n + 1, Assemble(raw), |raw|),
                             Assemble(raw));
            r.Ok? && Numbered(t, r.value.0, r.value.1, prefix, n, rig, raw, b)
  {
    var steps := Assemble(raw);
    WrittenBeads(t, FormatId(prefix, n), rig, rootNeeds, StepBeads(prefix, n + 1, steps, |raw|), steps, b);
    BlockIsRootAndSteps(prefix, n, steps, b);
    AnchorsAreNumbered(prefix, n, raw, FormatId(prefix, n));
  }

  /** Where the beads of a validated formula's run lie: right behind the highest number of the prefix. */
  lemma CookedBeads(t: Tables, prefix: string, rig: string, raw: seq<Validate.RawStep>, extraRootNeeds: seq<Id>, b: Id)
    requires CanCook(t, prefix, raw, extraRootNeeds)
    ensures var r := Cooked(t, prefix, rig, Assemble(raw), extraRootNeeds);
            r.Ok? && Numbered(t, r.value.0, r.value.1, prefix, High(t.counters, prefix) + 1, rig, raw, b)
  {
    var n, steps := High(t.counters, prefix) + 1, Assemble(raw);
    var stepBeads := StepBeads(prefix, n + 1, steps, |steps|);
    var rootNeeds := HeldBeads(stepBeads, prefix, n + 1, steps, |steps|) + extraRootNeeds;
    CookedIsWritten(t, prefix, rig, raw, extraRootNeeds);
    StepsAreRaw(raw);
    WrittenIsNumbered(t, prefix, n, rig, rootNeeds, raw, b);
  }
}
