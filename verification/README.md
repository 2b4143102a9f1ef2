# camp: the decision logic, modelled and proved

camp is a work orchestrator: formulas (lists of steps with `needs` edges) are composed, validated and cooked into runs
of beads in a ledger; a daemon claims ready beads, finalizes runs that have gone quiet, fires orders on cron schedules,
and escalates stalled workers. This project models the logic that decides, without the database, the clock and the
processes around it, and proves what that logic promises.

`dafny verify dfyconfig.toml` checks the whole project.

| files | what they model |
|---|---|
| `Text.dfy`, `NeedsGraph.dfy`, `Ordering.dfy` | paths, cycles and reachability over a `needs` relation; the order of ids; white space; shared by everything below |
| `Formula.dfy`, `Overlay.dfy`, `Extends.dfy` | formula files, laying a child over its parent, resolving `extends` |
| `Braces.dfy`, `BraceStages.dfy` | single-brace substitution at compile time, double-brace substitution at cook time |
| `Expand.dfy`, `ExpandText.dfy`, `ExpandPieces.dfy`, `ExpandShape.dfy` | replacing steps by templates, what substitution leaves and fills in, the order and the depth of what comes out |
| `Condition.dfy`, `Prune.dfy` | step conditions, and dropping the steps whose condition is false |
| `ExpandNeeds.dfy`, `ExpandSafety.dfy`, `ExpandExact.dfy`, `ExpandRuns.dfy`, `ExpandGaps.dfy` | who waits for whom after expansion, exactly, and what that means when the run executes |
| `Validate.dfy` | step ids, needs and the three-state cycle search |
| `Ids.dfy`, `Ledger.dfy`, `Cook.dfy` | bead ids and their counter, the event fold, cooking a run in one batch |
| `Readiness.dfy`, `DeadNeeds.dfy`, `Runtime.dfy`, `RunSafety.dfy`, `Progress.dfy`, `Finalize.dfy` | what is ready, what can never run, when a run is finished |
| `CronField.dfy`, `CronSpelling.dfy`, `CronSchedule.dfy`, `CronZones.dfy`, `CronHeap.dfy`, `CronRuns.dfy`, `CronGaps.dfy` | field parsing, the next-fire search, the timer heap, whole runs of wakes, and where they fall short |
| `PromptSafe.dfy` | the tag sanitizer |
| `Ladder.dfy` | the escalation ladder |

The source's mutable objects are classes here (the ledger, the cycle search, the unsatisfiability walk, the resolver, the
compilation, the timer heap, the ladder); its loops are methods with invariants. Each is proved equal to a function of
its inputs, and the theorems are about those functions: the verdict of a run holds in every ledger any history of events
can reach, the schedule theorems over every sequence of wakes, the ladder bounds over every sequence of calls.

Where a promise is not true of the code for all inputs, a failing input is given and the exact condition is proved:

- the two substitution stages are one simultaneous replacement if and only if every compile-time value is inert (closes
  what it opens and carries no legal double-brace token): `BraceStages.StagesIndependentExactly`, with
  `BraceStages.ValueInterferes`;
- waking late and noticing a clock jump declare the same fire except for an order at most 60 s late whose window is
  disabled, or that is exactly 60 s late with another fire at this instant: `CronRuns.OversleepIsJump`, for the whole heap
  `CronRuns.OversleepAgreesWithJump`, with `CronGaps.ZeroWindowParts` and `CronGaps.ExactMinuteParts`;
- laying formulas over one another is associative exactly when no refusal names a step of the other two only:
  `Overlay.OverlayIsAssociative`, with `Overlay.OverlayOrderMattersSomewhere`;
- a refusal is left in a resolved formula exactly when no merge over its formula finds the step it names on both sides:
  `Extends.RefusalsLeftExactly`; it can be lost though its step stays: `Extends.NestedRefusalIsLost`;
- the next-fire search is right for fixed offsets and whole-hour changes, and for a gap inside a day exactly when no
  minute behind the gap is hidden by a skipped one: `CronZones.GapExactly`, with `CronZones.HalfHourGapLosesFire`;
- the search looks six years ahead. The windowed scan returns the latest missed fire, and a prompt run declares every
  fire, exactly unless a place where it gives up has a fire behind it: `CronRuns.WindowedScanLosesNothing` and
  `CronRuns.PromptRunExactly`, with `CronGaps.ScanOverlooksLeapDay` and `CronGaps.PromptRunLosesLeapDay`;
- every cycle of needs shows up in a report, by an edge on a reported cycle, where no id holds a comma:
  `Validate.EveryCycleMeetsReport`; in an id a comma can hide one: `Validate.CommaHidesCycle`;
- what can never run never runs, with free histories elsewhere (`RunSafety.NeverRunsIsPermanent`); the roots of runs
  are the exception, exactly when an anchor failed softly: `RunSafety.PassedRootCouldNotRun`, with
  `Finalize.SoftFailurePassesRoot`;
- "an expansion never runs before its target's prerequisites" holds, step by step and through every level, exactly for
  the steps that wait anyway or reach a root at every level, over ids that pruning leaves:
  `ExpandExact.ExpansionAwaitsExactly` on the formula, `ExpandRuns.ExpansionRunsExactly` on its runs. It fails for steps
  that need the id of a step itself expanded away (`ExpandGaps.VanishedIdEscapes`), for steps that need a pruned one
  (`ExpandGaps.PrunedNeedEscapes`) and for children of template steps (`ExpandGaps.NestedStepEscapes`).

The code differs from its comments in two modelled places, and the model follows the code. The comment above
`propagate_target_deps` (compose.rs:578-587) has the needs of an expanded step reach the whole expansion; the code gives
them to the top-level template steps only, so a nested child misses them, and pruning later drops needs on pruned steps
with nothing put in their place. The comment above `fire_due` (cron.rs:256-261)
has both wake paths choose the identical fire; they part in the two cases named above.

Instants and durations are integers counting nanoseconds. A zone is given by what the search needs of it: the civil date
of each day, whether and to which instant a civil time resolves, and the day an instant falls on.

## Model

| member | source | states |
|---|---|---|
| `Validate.CheckCycles` | crates/camp-core/src/formula/validate.rs:416-478 | over any needs map a cycle is reported exactly when the graph has one; every reported path is a closed walk of real edges that meets no node twice; no two reports are over the same set of steps; and every cycle has an edge that closes a simple cycle which is reported or shares its key with a reported one |
| `Validate.EveryCycleMeetsReport` | crates/camp-core/src/formula/validate.rs:441-454 | where no id holds a comma, every cycle has an edge with both ends on one reported cycle |
| `Validate.KeyIsNodes` | crates/camp-core/src/formula/validate.rs:444-448 | there two simple cycles share their key exactly when they are over the same steps |
| `Validate.CommaHidesCycle` | crates/camp-core/src/formula/validate.rs:444-448 | a comma can hide a cycle: a step whose id spells two others in order has, needing itself, the key of these two needing each other |
| `Validate.EdgesAreSteps` | crates/camp-core/src/formula/validate.rs:463-471 | the search runs over the declared ids, each with the needs of the last step of that id |
| `Validate.CycleSearch.Dfs` | crates/camp-core/src/formula/validate.rs:424-463 | one call finishes its node and only ever finishes nodes; without a report every successor of a finished node was finished before it |
| `Validate.Check` | crates/camp-core/src/formula/validate.rs:150-203 | rules S4, S6 and S7: of ids and needs exactly the faults that are there are reported, each with its place; cycles as the search finds them, none passed over altogether; and nothing exactly on the well-formed step lists |
| `Validate.WellFormedHasNoFault` | crates/camp-core/src/formula/validate.rs:150-203 | none of the listed faults can be found in a well-formed step list |
| `Ids.ParseExact` | crates/camp-core/src/id.rs:25-36 | a text parses to (prefix, n) if and only if it is the canonical spelling of that pair: parsing and formatting are inverse |
| `Ids.IdGrammar` | crates/camp-core/src/id.rs:10-36 | which texts are ids, spelled out: lower-case letters and digits, a letter first, a hyphen, digits without a leading zero, the number within 64 bits |
| `Ids.BumpKeepsTrack` | crates/camp-core/src/id.rs:56-67 | raising the counter keeps it the largest number in use for each prefix |
| `Ids.CountersDetermined` | crates/camp-core/src/id.rs:56-67 | the counters are a function of the set of ids alone, so the order of creation does not matter and replay restores them |
| `Ids.NextIsFresh` | crates/camp-core/src/id.rs:41-52 | an id is handed out exactly for a valid prefix with room left, and then nobody has it and it parses back |
| `Ledger.IdsFreshOverHistories` | crates/camp-core/src/id.rs:41-67 | the same over every history of events, accepted and rejected, from an empty ledger |
| `Ledger.Ledger.FoldCreated` | crates/camp-core/src/ledger/fold.rs:139-210 | row, dependency rows and counter as the one state change of a creation; an existing id or a doubled need is refused |
| `Ledger.CreationMeans` | crates/camp-core/src/ledger/fold.rs:139-210 | a creation is accepted exactly for a new, well-formed id whose needs differ, and adds that one row, open and unclaimed, in its rig, with just these needs |
| `Ledger.ClaimMeans` | crates/camp-core/src/ledger/fold.rs:292-316 | a claim is accepted exactly for an open bead, which goes in progress under the session; no other row or field changes |
| `Ledger.CloseMeans` | crates/camp-core/src/ledger/fold.rs:495-535 | a close with a coherent report is accepted exactly for a bead not closed yet, and records outcome and disposition on that one row |
| `Ledger.SessionMeans` | crates/camp-core/src/ledger/fold.rs:1052-1219 | a session registers once, ends once, and only when live; neither waking nor stopping touches a bead |
| `Ledger.Incoherent` | crates/camp-core/src/ledger/fold.rs:414-500 | the report of a close is accepted exactly when only a failure is transient or has a disposition, the work's outcome goes with the bead's, and exactly shipped work has an artifact |
| `Ledger.Ledger.Fold` | crates/camp-core/src/ledger/fold.rs:292-545 | what each event does to beads, counters and sessions, with the source's refusals in their order: claims and closes change one row |
| `Ledger.Ledger.FoldEnded` | crates/camp-core/src/ledger/fold.rs:1186-1219 | only a registered live session ends; the row-by-row release computes what a crash gives back |
| `Ledger.CrashGivesBack` | crates/camp-core/src/ledger/fold.rs:1202-1211 | after a crash no bead is in progress under the session, every bead that was is open, unclaimed and needs what it needed, and no other bead is touched |
| `Ledger.EndedSessionKeepsBead` | crates/camp-core/src/ledger/fold.rs:1186-1219 | a session that has ended stays so, and a bead it holds leaves it only by being closed: no crash gives it back any more |
| `Ledger.Ledger.AppendBatch` | crates/camp-core/src/ledger/mod.rs:115-128 | a batch is all or nothing |
| `Ledger.ReplayExtends` | crates/camp-core/src/ledger/fold.rs:139-545 | over any history beads are never removed, dependency rows never change, and a closed bead stays as it is |
| `Readiness.NewlyReady` | crates/camp-core/src/readiness.rs:289-302 | returns exactly the dependents of the closed bead that are ready now, each once, in the order of their ids |
| `Readiness.CloseUpdatesReady` | crates/camp-core/src/readiness.rs:110-151 | closing a bead removes it from the ready set and adds its newly ready dependents, disjointly; a close that is not a pass adds none |
| `Readiness.IncrementalReadyIsExact` | crates/camp-core/src/readiness.rs:118-151 | the ready set kept up event by event equals the recomputed one after every history of creations, claims, closes and crashes |
| `Readiness.ReadyMeans` | crates/camp-core/src/readiness.rs:110-151 | ready is open with every need there, closed and passed; in the given rig, if one is given |
| `Readiness.LostWorkIsOfferedAgain` | crates/camp-core/src/ledger/fold.rs:1202-1211 | a ready bead that a live session claims and has not closed when it crashes, whatever happened in between, is ready again right then, and any session can claim it |
| `DeadNeeds.CanNeverRunIsFixedPoint` | crates/camp-core/src/formula/runtime.rs:392-417 | "some need is missing or closed without a pass, or is pending and can itself never run" holds of the walk's meaning |
| `DeadNeeds.CanNeverRunIsLeast` | crates/camp-core/src/formula/runtime.rs:353-417 | and of every such set of beads it is the least |
| `DeadNeeds.Unsatisfiable` | crates/camp-core/src/formula/runtime.rs:353-364 | on any ledger, cyclic or not, the walk ends, queries no bead twice, answers its meaning, and raises the cycle error only when pending beads really form a reachable cycle |
| `DeadNeeds.Walker.Walk` | crates/camp-core/src/formula/runtime.rs:366-390 | the recursion with its path set and memo keeps every memoized answer right and its path set equal to the path |
| `DeadNeeds.FalseAnswerCanRun` | crates/camp-core/src/formula/runtime.rs:366-417 | a memoized "no" is right, and rules out a reachable cycle of pending beads |
| `Progress.CanNeverRunIsExact` | crates/camp-core/src/formula/runtime.rs:353-417 | exactly: an open bead with no circle behind it can never run if and only if no history that obeys the discipline on its group and creates nothing the group lacks makes it ready |
| `Progress.DeadAnchorIsExact` | crates/camp-core/src/formula/runtime.rs:466-474 | so for every open anchor of an intact run: it is skipped as one that can never run exactly when nothing orderly could make it ready |
| `Progress.CanBeMadeReady` | crates/camp-core/src/formula/runtime.rs:392-417 | the other direction, constructed: passing what is ready or running, one bead at a time, makes it ready |
| `Runtime.Finalization` | crates/camp-core/src/formula/runtime.rs:439-496 | the scan computes the verdict of the ledger; its one other outcome is the corruption error, and only when an open anchor reaches a cycle |
| `Runtime.VerdictMeans` | crates/camp-core/src/formula/runtime.rs:455-496 | a final verdict read off the beads: the run passes exactly when every anchor passed or failed softly, fails hard exactly when one failed without being recorded as soft, and lists exactly the steps failed softly, skipped or open, and the open anchors, in formula order |
| `Runtime.VerdictDecides` | crates/camp-core/src/formula/runtime.rs:439-474 | a run finalizes exactly when its root is open and every anchor is closed or can never run; an error names the missing root, or the first anchor not at rest when it is missing |
| `RunSafety.QuiescenceIsExact` | crates/camp-core/src/formula/runtime.rs:439-496 | on an intact run with an open root the verdict is to finalize if and only if no anchor is in progress and none is ready |
| `RunSafety.QuietMeansStuck` | crates/camp-core/src/formula/runtime.rs:466-474 | with nothing running and nothing ready every open anchor is one that can never run |
| `RunSafety.AnchorReachesNoCycle` | crates/camp-core/src/formula/runtime.rs:353-386 | the walk from an anchor of an intact run can never raise the cycle error |
| `RunSafety.FinalizationSurvivesCrash` | crates/camp-core/src/formula/runtime.rs:423-496 | after any part of the skips was already written, the verdict is the same with exactly that part gone from the skip list |
| `RunSafety.FinalizedRunIsClosed` | crates/camp-core/src/formula/runtime.rs:439-496 | after the skips and the root close every bead of the run is closed and the run is not finalized again |
| `RunSafety.NeverRunsIsPermanent` | crates/camp-core/src/formula/runtime.rs:353-417 | what can never run never runs, over every history that claims only ready beads and passes only ready or claimed ones among it and what it waits for, and creates nothing these lack; whatever else happens |
| `RunSafety.DeadAnchorStaysDead` | crates/camp-core/src/formula/runtime.rs:353-417 | for an anchor of an intact run only the claims and passes of that run's own anchors need the discipline |
| `RunSafety.FinalizationIsDisciplined` | crates/camp/src/daemon/dispatch.rs:2345-2412 | what finalization writes, its own run's or another's, keeps that discipline |
| `Cook.CookingIsDisciplined` | crates/camp-core/src/formula/cook.rs:355-440 | and so does the batch that cooks another run |
| `RunSafety.PassedRootCouldNotRun` | crates/camp-core/src/formula/runtime.rs:475-496 | the bead for which it fails: the root of a run that finalizes as passed could never run, by the walk's reading, if and only if an anchor failed softly |
| `Finalize.FinalizeIfQuiescent` | crates/camp/src/daemon/dispatch.rs:2345-2412 | on an intact run the verdict is always available, no close is refused, and the ledger afterwards is the old one with the skips and the root closed |
| `Finalize.ValidatedRunIsSafeForever` | crates/camp-core/src/formula/cook.rs:286-313 | a formula without S4, S6 or S7 violation cooks, and in every ledger any history leads to its run is whole, meets no cycle error and finalizes exactly when quiet |
| `Finalize.SoftFailurePassesRoot` | crates/camp-core/src/formula/runtime.rs:475-496 | such a run: one step, failed softly; its root can never run, and finalization closes it as passed |
| `Cook.CookRun` | crates/camp-core/src/formula/cook.rs:279-313 | cooking against the ledger has the computed effect or none at all |
| `Cook.BlockIsFresh` | crates/camp-core/src/formula/cook.rs:279-293 | the whole block of ids names beads that do not exist, all different |
| `Cook.FreshBatchApplies` | crates/camp-core/src/formula/cook.rs:355-440 | a batch of fresh creations goes through and leaves every older bead as it was |
| `Cook.BatchIsExact` | crates/camp-core/src/formula/cook.rs:355-440 | a batch of creations goes through exactly when each bead is new, well formed, needs nothing twice and is created once |
| `Cook.CookedBeads` | crates/camp-core/src/formula/cook.rs:279-313 | the root of a run takes the number after the highest of its prefix, the steps the next ones in formula order; these beads, in the given rig, and no others are added |
| `Cook.ValidatedFormulaCooks` | crates/camp-core/src/formula/cook.rs:279-440 | a validated formula cooks into an intact run: anchors open with their steps' needs, the root open and waiting for all of them |
| `Cook.AnchorsAcyclic` | crates/camp-core/src/formula/cook.rs:296-313 | the dependency edges written between anchors form no cycle |
| `Braces.SubstituteSingleBraceVars` | crates/camp-core/src/formula/compose.rs:419-477 | the index scan writes the resolved token sequence of its text |
| `Braces.SubstituteVars` | crates/camp-core/src/formula/cook.rs:89-116 | the loop over the unread rest writes the instantiated token sequence of its text |
| `Braces.CompileCopies` | crates/camp-core/src/formula/compose.rs:424-447 | what compiling makes of an ordinary character, and of an opening brace or pair that is never closed: it is copied |
| `Braces.CompileReadsSingle` | crates/camp-core/src/formula/compose.rs:449-477 | of a single brace: a word with a value becomes it, unread; a word without one stays; anything else is no token, and reading goes on behind the brace |
| `Braces.CompileReadsDouble` | crates/camp-core/src/formula/compose.rs:431-446 | of a double brace: the token is copied whole |
| `Braces.CookReadsToken` | crates/camp-core/src/formula/cook.rs:89-116 | what cooking makes of a double-brace token: the value of a legal name that has one, else the token itself |
| `Braces.CookCopies` | crates/camp-core/src/formula/cook.rs:89-116 | and of anything else: it is copied |
| `Braces.LegalMeans` | crates/camp-core/src/formula/cook.rs:98-103 | which names cooking takes: ASCII letters, digits and underscores, no digit first |
| `BraceStages.StagesAreSimultaneous` | crates/camp-core/src/formula/compose.rs:419-477 | with inert values, cooking the compiled text equals one simultaneous replacement of both kinds of token |
| `BraceStages.BraceFreeIsInert` | crates/camp-core/src/formula/compose.rs:367-389 | every value without an opening brace is inert |
| `BraceStages.ValueInterferes` | crates/camp-core/src/formula/compose.rs:419-477 | a value that is not inert has a text and cook-time values on which the two stages are not one replacement |
| `BraceStages.StagesIndependentExactly` | crates/camp-core/src/formula/compose.rs:367-389 | compile and cook are one replacement on every text if and only if every compile-time value is inert |
| `BraceStages.CompileKeepsDoubles` | crates/camp-core/src/formula/compose.rs:419-477 | with values free of opening braces the sequence of double-brace tokens of any text is kept exactly |
| `Overlay.LayOver` | crates/camp-core/src/formula/compose.rs:279-349 | the loops that replace or append steps and filter refusals compute the overlay whose laws follow |
| `Overlay.MergedIsClosedForm` | crates/camp-core/src/formula/compose.rs:279-301 | placing steps one by one yields one step per id, in the order of first definers, each with the body of its last definer |
| `Overlay.PlaceAllAssociative` | crates/camp-core/src/formula/compose.rs:279-301 | laying step lists over one another is associative when the middle one has unique ids |
| `Overlay.OverlayIsAssociative` | crates/camp-core/src/formula/compose.rs:279-349 | over formulas with unique step ids the overlay is associative if and only if no refusal names a step that its own formula lacks and both others define |
| `Overlay.OverlayOrderMatters` | crates/camp-core/src/formula/compose.rs:279-349 | the inputs on which it is not: a refused nested or template step whose id both later formulas define is lost one way and kept the other |
| `Overlay.OverlayOrderMattersSomewhere` | crates/camp-core/src/formula/compose.rs:279-349 | three such formulas |
| `Extends.Resolver.Chain` | crates/camp-core/src/formula/compose.rs:197-261 | the recursion with its shared list of visited names returns the chain's result and restores the list |
| `Extends.ResolutionIsExact` | crates/camp-core/src/formula/compose.rs:197-261 | on every library resolution ends, and succeeds if and only if everything extended, directly or not, exists and none of it extends itself in the end |
| `Extends.NamedResolutionIsExact` | crates/camp-core/src/formula/compose.rs:523-524 | the same for a formula resolved under its own name, as expansion does it |
| `Extends.FailureIsReal` | crates/camp-core/src/formula/compose.rs:228-253 | a failure names a real fault: a formula that does not exist and is extended, directly or not, or a path of formulas that leads back to itself |
| `Extends.ChainIsFolded` | crates/camp-core/src/formula/compose.rs:233-260 | the recursive result is the fold of the chain's layers, each formula over all it extends, in the order they are laid down |
| `Extends.LineageIsParentsThenOwn` | crates/camp-core/src/formula/compose.rs:205-261 | that order: the whole lineage of each parent, parent by parent as listed, then the formula itself over all of them |
| `Extends.ResolvedIsClosedForm` | crates/camp-core/src/formula/compose.rs:171-349 | the resolved formula in closed form: one step per id, at the place of its first definer and with the body of its last; every variable as last defined; description, compiler, contract, kind and template each the last one present; its own name; violations and ignored keys of all, in that order |
| `Extends.RefusalsLeftExactly` | crates/camp-core/src/formula/compose.rs:171-196 | a refusal is left if and only if a formula of the chain makes it and no merge over that formula finds the step it names on both its sides |
| `Extends.OwnedRefusalsLeft` | crates/camp-core/src/formula/compose.rs:171-196 | when refusals name steps of their own formula: left if and only if no later formula defines the step again |
| `Extends.NestedRefusalIsLost` | crates/camp-core/src/formula/compose.rs:171-196 | the chain on which that simpler rule fails: the refusal of a nested child goes with a replaced top-level step of its id, though the child is still there |
| `Expand.PropagateTargetDeps` | crates/camp-core/src/formula/compose.rs:588-608 | in place, the target's needs go in front of the needs of exactly the steps that need nothing inside the expansion |
| `Expand.FlattenInto` | crates/camp-core/src/formula/compose.rs:613-619 | a step and its children, recursively, in order |
| `ExpandShape.FlatteningIsPreorder` | crates/camp-core/src/formula/compose.rs:610-619 | every step of the tree comes out once, whatever its depth and without its children: a step first, then what is below it, child by child |
| `Expand.Compilation.ExpandSteps` | crates/camp-core/src/formula/compose.rs:485-576 | the mutually recursive loops compute the expansion and add its findings to those already there, also on failure |
| `ExpandShape.LoadsExactly` | crates/camp-core/src/formula/compose.rs:502-530 | a target can be expanded exactly when its formula exists, all that this extends exists without coming round, and some formula of its lineage has template steps |
| `ExpandShape.NestingIsBounded` | crates/camp-core/src/formula/compose.rs:351-353 | formulas stacked one in the other expand exactly when the last is met at depth five or before |
| `ExpandShape.FindingsAreKept` | crates/camp-core/src/formula/compose.rs:525-530 | what the formula of a target is found at fault for is among the findings, also when its expansion fails further down |
| `ExpandPieces.ExpansionVariables` | crates/camp-core/src/formula/compose.rs:532-547 | an override of the target, resolved against the caller's variables at both stages, wins over the expansion's own default |
| `ExpandText.PlainTemplateStays` | crates/camp-core/src/formula/compose.rs:621-669 | a template step without an opening brace, but for conditions that name no target, comes out of substitution as it went in, field for field and child for child |
| `ExpandPieces.PiecesAreFilledIn` | crates/camp-core/src/formula/compose.rs:394-477 | a template text of any number of target placeholders, variables and double-brace tokens, in any order: each substitution fills in what is in its reach and changes nothing else |
| `ExpandPieces.StepIsFilledIn` | crates/camp-core/src/formula/compose.rs:621-669 | a template step of such texts comes out filled in, field by field and child by child: the condition with the target alone, the assignee with the variables alone, everything else with both |
| `ExpandPieces.TemplateIsFilledIn` | crates/camp-core/src/formula/compose.rs:549-552 | a whole template, with the target's own id, title and description, absent ones being empty, and the expansion's variables |
| `ExpandPieces.NeedsAreSubstituted` | crates/camp-core/src/formula/compose.rs:640-669 | needs survive substitution, children included, and none appears: one step needs another after it exactly when steps that become these do before |
| `ExpandNeeds.PropagationReachesAll` | crates/camp-core/src/formula/compose.rs:578-608 | with acyclic inner needs every step of an expansion comes to wait, directly or not, for everything the target needed |
| `ExpandNeeds.TemplateAwaitsExactly` | crates/camp-core/src/formula/compose.rs:588-619 | one level, children included: for a need the template does not state itself, all its steps come to wait for it if and only if each is, or needs in the end, a root at the top of the template |
| `ExpandNeeds.ChildEscapesTarget` | crates/camp-core/src/formula/compose.rs:588-619 | a step below the top of the template whose needs all lie outside it comes out waiting for none of the target's needs |
| `ExpandExact.ExpansionAwaitsExactly` | crates/camp-core/src/formula/compose.rs:485-608 | through every level, on every library, whichever ids pruning takes away: a step of the expanded formula waits for a need of the expanded step if and only if it does so in the expansion without that step's needs, or it is or needs a step in its place that is a root at every level |
| `ExpandSafety.LeftIdsAreResultIds` | crates/camp-core/src/formula/compose.rs:485-576 | the ids an expansion leaves can be read off the templates |
| `ExpandSafety.ExpansionAwaitsTargetNeeds` | crates/camp-core/src/formula/compose.rs:485-608 | a target is replaced where it stands, and under a condition on the templates alone (no children, needed ids left behind) all steps that replace it wait for everything it needed |
| `ExpandSafety.EndlessExpansionFails` | crates/camp-core/src/formula/compose.rs:351-353 | formulas that expand into one another without end are an error at whatever depth, never an endless or a truncated compile |
| `ExpandSafety.ResultIsFlat` | crates/camp-core/src/formula/compose.rs:610-619 | what comes out of expansion has no nested step |
| `Condition.ConditionMeans` | crates/camp-core/src/formula/compose.rs:697-733 | a condition compares the variable between the double braces with the value behind the operator, whatever white space and quotes stand around them; undefined, `==` is false and `!=` is true; behind `==` even `!=` is part of the value |
| `Condition.OperatorIsNeeded` | crates/camp-core/src/formula/compose.rs:701-711 | exactly the texts without either operator fail for want of one |
| `Condition.VariableIsNeeded` | crates/camp-core/src/formula/compose.rs:712-722 | and exactly the left sides that are not one variable in double braces, white space aside, for want of one |
| `Text.SpacesAre` | crates/camp-core/src/formula/compose.rs:712-723 | which characters are trimmed: the twenty-five with the property White_Space |
| `Prune.PruneConditions` | crates/camp-core/src/formula/compose.rs:749-794 | the loops that decide conditions, drop steps, filter refusals and free needs compute the pruning whose laws follow; an undecidable condition is a violation and its step stays |
| `Prune.PrunedAre` | crates/camp-core/src/formula/compose.rs:756-794 | exactly the steps whose condition is not false stay, each without its needs on dropped ones |
| `Prune.StandingInOrder` | crates/camp-core/src/formula/compose.rs:756-770 | in their order |
| `Prune.DroppedAre` | crates/camp-core/src/formula/compose.rs:756-770 | a step is dropped when its condition can be decided and is false; an id is gone when a dropped step has it |
| `Prune.BadConditionsAre` | crates/camp-core/src/formula/compose.rs:772-781 | the conditions reported are exactly those that cannot be decided, each with its step and reason |
| `Prune.PruningIsIdempotent` | crates/camp-core/src/formula/compose.rs:749-794 | pruning once is enough |
| `Prune.PruningKeepsWellFormed` | crates/camp-core/src/formula/compose.rs:788-794 | a formula without S4, S6 or S7 violation has none after pruning: no need dangles, and no cycle appears |
| `Prune.PruningAwaitsExactly` | crates/camp-core/src/formula/compose.rs:788-794 | a step that stays waits for another after pruning if and only if a way of ids that are not gone leads it there before |
| `ExpandRuns.StartedStepHasPassedBehind` | crates/camp-core/src/readiness.rs:118-137 | in every history disciplined on its run's anchors a started bead has everything passed that its step waits for, directly or not |
| `ExpandRuns.ExpansionRunsAfterTargetNeeds` | crates/camp-core/src/formula/compose.rs:546-556 | cook the validated result of expansion and pruning: under the same condition on the templates, and when pruning drops neither the needed step nor anything in the target's place, no bead of a step that replaces the target is claimed or passed before the bead of everything the target needed has passed |
| `ExpandRuns.WaitingIsExact` | crates/camp-core/src/readiness.rs:118-137 | a step of a validated formula never starts before another has passed, in any history disciplined on its run's anchors, if and only if it waits for it in the formula |
| `ExpandRuns.PrunedRunsExactly` | crates/camp-core/src/formula/compose.rs:749-794 | the same read off the formula before pruning, by the ways of ids that are not gone |
| `ExpandRuns.ExpansionRunsExactly` | crates/camp-core/src/formula/compose.rs:112-141 | the promise about runs with no condition on the templates or on pruning: the expanded step runs after the needed one in every such history if and only if it waits anyway or at a root, over ids that are not gone |
| `ExpandGaps.VanishedIdEscapes` | crates/camp-core/src/formula/compose.rs:485-608 | the nested expansion on which the promise fails: it compiles and validates, and a step in place of the target does not wait for what the target needed |
| `ExpandGaps.VanishedIdRunsEarly` | crates/camp-core/src/formula/compose.rs:546-556 | and every run cooked from it has a disciplined history that starts that step first |
| `ExpandGaps.PrunedNeedEscapes` | crates/camp-core/src/formula/compose.rs:788-794 | the promise fails when a false condition drops the step between: the formula compiles and validates, and what stays in place of the target waits for nothing |
| `ExpandGaps.UndefinedConditionFalls` | crates/camp-core/src/formula/compose.rs:725-732 | such conditions: an undefined variable compared with `==` |
| `ExpandGaps.IndependentRunsEarly` | crates/camp-core/src/formula/compose.rs:788-794 | and every run cooked from what is left starts that step first in some disciplined history |
| `ExpandGaps.NestedStepEscapes` | crates/camp-core/src/formula/compose.rs:610-619 | the promise fails for a step nested in a template step: it compiles and validates without the target's needs |
| `ExpandGaps.NestedStepRunsEarly` | crates/camp-core/src/formula/compose.rs:546-556 | and every run cooked from it has a disciplined history that starts it first |
| `PromptSafe.SanitizeForSystemReminder` | crates/camp-core/src/promptsafe.rs:12-26 | the loop terminates with the normal form of its input, in which no tag is left |
| `PromptSafe.EveryOrderAgrees` | crates/camp-core/src/promptsafe.rs:12-26 | every run of single deletions that ends without a tag ends in the normal form |
| `PromptSafe.NormalByDeletions` | crates/camp-core/src/promptsafe.rs:12-26 | the normal form is reached by deleting tags and nothing else |
| `PromptSafe.SanitizeConcat` | crates/camp-core/src/promptsafe.rs:12-26 | sanitizing two texts and then their concatenation is sanitizing the concatenation |
| `Ladder.LadderTable.OnFire` | crates/camp-core/src/patrol/mod.rs:106-127 | nudge, then restart while the budget lasts, then exhausted; no other bead is touched |
| `Ladder.FireAnswersByHistory` | crates/camp-core/src/patrol/mod.rs:106-147 | what a fire answers, read off the history alone: a nudge unless one was tried since the last activity, restart or forget, then a restart while fewer were ordered than the budget in force, then exhausted |
| `Ladder.RestartsBounded` | crates/camp-core/src/patrol/mod.rs:106-160 | the restart count is the number of restarts ordered since the last forget and never passes the largest budget in force |
| `Ladder.BudgetIsLastSet` | crates/camp-core/src/patrol/mod.rs:153-160 | the budget in force is the one last set, or the one the table was made with |
| `Ladder.RestartNeedsNudge` | crates/camp-core/src/patrol/mod.rs:106-147 | a delivered or failed nudge precedes every restart and lies between any two of a bead |
| `Ladder.ThresholdIsScaledBase` | crates/camp-core/src/patrol/mod.rs:164-168 | for a positive base the threshold is the base times 2 to the restarts, at most 20, cut off at the largest duration |
| `Ladder.ThresholdNeverFalls` | crates/camp-core/src/patrol/mod.rs:164-173 | until a bead is forgotten its threshold never falls, whatever is called |
| `CronField.ParseField` | crates/camp-core/src/orders/cron.rs:379-443 | a field parses exactly when all its items do, the first bad item naming the error, and then holds exactly the values the items denote, 7 as Sunday |
| `CronField.Parse` | crates/camp-core/src/orders/cron.rs:41-58 | an expression parses exactly when it has five fields that parse, and means what they denote |
| `CronSpelling.SpelledField` | crates/camp-core/src/orders/cron.rs:369-453 | a field spelled as a list of numbers, ranges, stars and steps has the fault of its first faulty item, each fault told apart; without one it holds exactly the numbers its items name between them, Sunday as 0 |
| `CronSpelling.ZerosAndPlusRead` | crates/camp-core/src/orders/cron.rs:445-453 | a number is also read behind leading zeros, and behind one plus sign |
| `CronSpelling.LineSplits` | crates/camp-core/src/orders/cron.rs:41-46 | words with white space between and around them split into these words |
| `CronSpelling.SpelledMatches` | crates/camp-core/src/orders/cron.rs:111-158 | an expression so spelled fires at exactly the civil times that resolve and whose minute, hour and month its items name, on days either day field names, or, where one is a lone star, the other |
| `CronSchedule.FirstFireOn` | crates/camp-core/src/orders/cron.rs:111-139 | the hour and minute loops return what the day's search function says, passing over civil times that cannot be resolved |
| `CronSchedule.SearchNextAfter` | crates/camp-core/src/orders/cron.rs:87-109 | the day loop with its horizon and calendar end returns what the search function says |
| `CronSchedule.NextIsLeast` | crates/camp-core/src/orders/cron.rs:74-158 | the result is the least fire strictly after the given instant among all fires; none exactly when no fire lies on a day of the horizon |
| `CronSchedule.NextIsStable` | crates/camp-core/src/orders/cron.rs:74-109 | asking later, but before the answer, gives the same answer |
| `CronSchedule.FiresApart` | crates/camp-core/src/orders/cron.rs:111-139 | distinct fires of an expression are at least a minute apart |
| `CronZones.FixedOffsetIsAligned` | crates/camp-core/src/orders/cron.rs:74-86 | fixed-offset zones meet the conditions of the search theorem |
| `CronZones.HourChangeIsAligned` | crates/camp-core/src/orders/cron.rs:74-86 | so do whole-hour spring-forward and fall-back changes |
| `CronZones.GapExactly` | crates/camp-core/src/orders/cron.rs:74-139 | where the clock goes forward inside a day, by any number of minutes at any minute, the result is the least later fire from every instant if and only if no minute behind the gap is hidden by a skipped one, which the fields, the gap and its date decide |
| `CronZones.LateGapLosesFire` | crates/camp-core/src/orders/cron.rs:87-109 | a gap so late that a skipped minute is an instant of the next day: the search passes over it |
| `CronZones.HalfHourGapLosesFire` | crates/camp-core/src/orders/cron.rs:74-139 | an expression and an instant on which it is not: the search passes over a fire for a later one |
| `CronZones.NextOfText` | crates/camp-core/src/orders/cron.rs:41-158 | from the text of the expression to the least instant whose minute, hour, month and day rule hold in the sets the text denotes |
| `CronHeap.ScanMissed` | crates/camp-core/src/orders/cron.rs:338-367 | the cursor loop returns what the scan function says |
| `CronHeap.Heap.Arm` | crates/camp-core/src/orders/cron.rs:229-249 | an order is armed at its next fire, or refused by name with the heap untouched |
| `CronHeap.PopMeans` | crates/camp-core/src/orders/cron.rs:262-304 | what a pop does to one armed order: nothing before its deadline; then its fire, if any, and its next fire after now, if any |
| `CronHeap.RecomputeMeans` | crates/camp-core/src/orders/cron.rs:312-334 | what a recomputation does to one order: armed at its next fire after now; a missed fire reported only when the clock moved on, as a catch-up exactly when over 60 s late |
| `CronHeap.Heap.FireDue` | crates/camp-core/src/orders/cron.rs:262-304 | declares exactly the fires of the due orders, at most one per order, earliest deadline first, and leaves every due order at its next fire from now |
| `CronHeap.Heap.Recompute` | crates/camp-core/src/orders/cron.rs:312-334 | leaves every order at its next fire from now and reports each order's most recent missed fire, in order of arming |
| `CronHeap.Heap.NextDeadline` | crates/camp-core/src/orders/cron.rs:252-254 | the smallest armed deadline, none exactly for an empty heap |
| `CronRuns.WindowedScanReaches` | crates/camp-core/src/orders/cron.rs:338-367 | the scan returns the latest missed fire behind no place where the search gives up |
| `CronRuns.WindowedScanLosesNothing` | crates/camp-core/src/orders/cron.rs:338-367 | that is the latest of all recent enough fires since the last call if and only if neither its start nor a fire behind it has nothing ahead for a whole search horizon and a missed fire after that |
| `CronRuns.DeclaredMeans` | crates/camp-core/src/orders/cron.rs:271-292 | what popping a deadline declares: up to 60 s late the deadline itself as on time; later a fire not before it that the window still admits, a catch-up exactly when it too is over 60 s late |
| `CronRuns.DeclaresLatest` | crates/camp-core/src/orders/cron.rs:271-292 | and no later one is passed over, unless the search gives up on the way there |
| `CronGaps.ScanOverlooksLeapDay` | crates/camp-core/src/orders/cron.rs:338-367 | an input where it is not: `0 0 29 2 *` over a century without a leap day |
| `CronRuns.OversleepIsJump` | crates/camp-core/src/orders/cron.rs:193-205 | for a due order both paths declare the same fire and flag if and only if it is over 60 s late, or its window is enabled and it is not exactly 60 s late with another fire now |
| `CronGaps.ZeroWindowParts` | crates/camp-core/src/orders/cron.rs:193-205 | a parting input: without a catch-up window, an order due on time is declared by a late wake and not by a jump |
| `CronGaps.ExactMinuteParts` | crates/camp-core/src/orders/cron.rs:193-205 | another: an every-minute order woken exactly 60 s late is declared for its deadline by the one and for this instant by the other |
| `CronRuns.OversleepAgreesWithJump` | crates/camp-core/src/orders/cron.rs:256-334 | for the whole heap, quiet orders and absences of any length included: the same deadlines exactly when no quiet order has a fire ahead, the same fires exactly when no due order is in a parting case and no quiet order has a missed fire the scan can reach |
| `CronRuns.NothingTwice` | crates/camp-core/src/orders/cron.rs:262-334 | over any run of wakes and jumps with a nondecreasing clock each order's declared instants are fires, strictly increasing |
| `CronRuns.PromptRunIsComplete` | crates/camp-core/src/orders/cron.rs:262-304 | when every wake is less than 60 s after the earliest deadline, an order armed at the start declares only its fires and all that lie within a search horizon |
| `CronRuns.PromptRunExactly` | crates/camp-core/src/orders/cron.rs:262-304 | and exactly its fires up to the last wake if and only if no wake finds nothing ahead of it for a whole search horizon and a fire of its after that within the run |
| `CronGaps.PromptRunLosesLeapDay` | crates/camp-core/src/orders/cron.rs:262-304 | a run where it does not: the order for leap days goes quiet over a century without one |
| `CronRuns.ArmAll` | crates/camp/src/daemon/orders.rs:239-245 | arming the declared orders one by one leaves every cron order at its next fire, or stops at the first that never fires and names it |
| `CronRuns.ArmedHeapKeepsSchedule` | crates/camp-core/src/orders/cron.rs:229-334 | a heap so built meets what the run theorems ask: nothing is declared twice over any run, and on prompt runs nothing is missed, exactly unless a wake loses a fire to the horizon |

## Left out

- The order in which dependency rows are visited: they are a set, and the unsatisfiability walk and the crash release pick from it in any order.
- Titles, bead types, labels, metadata and the wording of errors; of a session only whether it is registered, live or ended; values outside a vocabulary, which the model's types leave out.
- Updates, dispatch failures, milestones and every other event that touches neither status nor dependencies.
- Run directories, manifests, recipes and the cleanup of files after a failed cook.
- Validation rules other than S4, S6 and S7, and the assembly of the remaining step fields.
- Reading description files: the library holds formulas already parsed, with their descriptions inlined.
- The `{target}` family has no double-brace guard; it is modelled as part of expansion, but the two-stage theorem is about the variable grammar alone.
- The bond, drain and `for_each` substitutions, which have their own grammars, and check, retry and loop steps.
- `dead_end_inputs`: it takes the first bead without a step for the root, which a run with members breaks.
- The time zone database: a zone is abstract, and the theorems name what they need of it.
- Integer widths: bead numbers and ladder counters are bounded, and an id past the 64-bit range is an explicit error instead of a panic; lengths and instants are unbounded.
- RunSafety.NeverRunsIsPermanent: says nothing of a bead that is passed by hand while it is neither ready nor claimed; nor of roots, for which RunSafety.PassedRootCouldNotRun is exact.
- CronZones.GapExactly: is stated for gaps that end, with as much time again behind them, on their own day; for later ones CronZones.LateGapLosesFire shows that the search can lose a fire in another way.
- CronRuns.OversleepIsJump: asks that the deadline lie a second or more after the earliest representable instant, because the one-second step back is not taken before it.
- ExpandSafety.ExpansionAwaitsTargetNeeds: asks that the templates have no children and that a step needed by another leaves its id; what holds without that is ExpandExact.ExpansionAwaitsExactly.
- ExpandRuns.ExpansionRunsAfterTargetNeeds: asks the same of the templates, and that pruning drop nothing in the target's place; what holds without it is ExpandRuns.ExpansionRunsExactly.
- Extends.ResolvedIsClosedForm: is stated for formulas with unique step ids, because a formula that repeats an id is merged with itself on the way.
- Extends.RefusalsLeftExactly: is stated for formulas with unique step ids, for the same reason.
- ExpandPieces.PiecesAreFilledIn: is stated for texts without another opening brace and a target whose id, title and description open none, because an inserted id or title that itself spells a placeholder is replaced again by the passes after it; values of variables may hold anything.
- Validate.KeyIsNodes: asks that no id hold a comma; a comma does harm only where other ids spell the same list, as in Validate.CommaHidesCycle, and Validate.CheckCycles says in terms of keys what holds of all ids.
- The daemon, its sockets and its worktrees; orders declared elsewhere and their deduplication in the ledger.
