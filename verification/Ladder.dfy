/** The per-bead escalation ladder: nudge, restart while the budget lasts, then exhausted. */
module Ladder {
  import opened Wrappers

  type Id = string

  /** Rust's `u32`: that the restart counter stays inside it is checked, not assumed. */
  type u32 = n: int | 0 <= n < 0x1_0000_0000

  datatype LadderAction = Nudge | Restart | Exhausted

  datatype Next = NextNudge | NextRestart

  datatype LadderState = LadderState(restarts: u32, next: Next)

  const FRESH := LadderState(0, NextNudge)

  datatype Snapshot = Snapshot(budget: u32, states: map<Id, LadderState>)

  function StateOf(s: Snapshot, bead: Id): LadderState {
    if bead in s.states then s.states[bead] else FRESH
  }

  datatype Call =
    | OnFire(bead: Id)
    | OnActivity(bead: Id)
    | NudgeFailed(bead: Id)
    | SetRestartBudget(budget: u32)
    | Forget(bead: Id)

  function Act(s: Snapshot, bead: Id): LadderAction {
    var state := StateOf(s, bead);
    if state.next == NextNudge then Nudge
    else if state.restarts < s.budget then Restart
    else Exhausted
  }

  function AfterFire(s: Snapshot, bead: Id): LadderState {
    var state := StateOf(s, bead);
    match Act(s, bead)
    case Nudge => state.(next := NextRestart)
    case Restart => LadderState(state.restarts + 1, NextNudge)
    case Exhausted => state
  }

  function Step(s: Snapshot, call: Call): Snapshot {
    match call
    case OnFire(bead) => s.(states := s.states[bead := AfterFire(s, bead)])
    case OnActivity(bead) =>
      if bead in s.states then s.(states := s.states[bead := s.states[bead].(next := NextNudge)]) else s
    case NudgeFailed(bead) => s.(states := s.states[bead := StateOf(s, bead).(next := NextRestart)])
    case SetRestartBudget(budget) => s.(budget := budget)
    case Forget(bead) => s.(states := s.states - {bead})
  }

  // ---- durations ---------------------------------------------------------

  /** The largest signed duration, in nanoseconds. */
  const MAX_DURATION := 0x7FFF_FFFF_FFFF_FFFF * 1_000_000_000 + 999_999_999
  const MIN_DURATION := -0x8000_0000_0000_0000 * 1_000_000_000 - 999_999_999

  function Pow2(n: nat): nat {
    if n == 0 then 1 else 2 * Pow2(n - 1)
  }

  function CheckedMul(d: int, factor: int): Option<int> {
    if MIN_DURATION <= d * factor <= MAX_DURATION then Some(d * factor) else None
  }

  function EffectiveThreshold(s: Snapshot, bead: Id, base: int): int {
    var restarts := StateOf(s, bead).restarts;
    match CheckedMul(base, Pow2(if restarts < 20 then restarts else 20))
    case Some(d) => d
    case None => MAX_DURATION
  }

  // ---- the object --------------------------------------------------------

  class LadderTable {
    var restartBudget: u32
    var states: map<Id, LadderState>

    ghost function View(): Snapshot
      reads this
    {
      Snapshot(restartBudget, states)
    }

    constructor (restartBudget: u32)
      ensures View() == Snapshot(restartBudget, map[])
    {
      this.restartBudget, states := restartBudget, map[];
    }

    method OnFire(bead: Id) returns (action: LadderAction)
      modifies this`states
      ensures action == Act(old(View()), bead)
      ensures View() == Step(old(View()), Call.OnFire(bead))
    {
      if bead !in states {
        states := states[bead := FRESH];
      }
      var state := states[bead];
      match state.next {
        case NextNudge =>
          states := states[bead := state.(next := NextRestart)];
          return Nudge;
        case NextRestart =>
          if state.restarts < restartBudget {
            states := states[bead := LadderState(state.restarts + 1, NextNudge)];
            return Restart;
          }
          return Exhausted;
      }
    }

    method OnActivity(bead: Id)
      modifies this`states
      ensures View() == Step(old(View()), Call.OnActivity(bead))
    {
      if bead in states {
        states := states[bead := states[bead].(next := NextNudge)];
      }
    }

    method NudgeFailed(bead: Id)
      modifies this`states
      ensures View() == Step(old(View()), Call.NudgeFailed(bead))
    {
      if bead !in states {
        states := states[bead := FRESH];
      }
      states := states[bead := states[bead].(next := NextRestart)];
    }

    method SetRestartBudget(budget: u32)
      modifies this`restartBudget
      ensures View() == Step(old(View()), Call.SetRestartBudget(budget))
    {
      restartBudget := budget;
    }

    method Forget(bead: Id)
      modifies this`states
      ensures View() == Step(old(View()), Call.Forget(bead))
    {
      states := states - {bead};
    }
  }

  // ---- whole histories ---------------------------------------------------

  /** The ladder after a history of calls on a new one. */
  function After(budget: u32, calls: seq<Call>): Snapshot {
    if calls == [] then Snapshot(budget, map[])
    else Step(After(budget, calls[..|calls| - 1]), calls[|calls| - 1])
  }

  /** What the `i`-th call of a history answered, when it was a fire of `bead`. */
  predicate Answered(budget: u32, calls: seq<Call>, i: nat, bead: Id, action: LadderAction)
    requires i < |calls|
  {
    calls[i] == OnFire(bead) && Act(After(budget, calls[..i]), bead) == action
  }

  /** How many restarts the history ordered for `bead` since it was last forgotten. */
  function RestartsOrdered(budget: u32, calls: seq<Call>, bead: Id): nat {
    if calls == [] then 0
    else
      var last := |calls| - 1;
      if calls[last] == Forget(bead) then 0
      else RestartsOrdered(budget, calls[..last], bead) + if Answered(budget, calls, last, bead, Restart) then 1 else 0
  }

  /** The largest budget in force at any time since `bead` was last forgotten. */
  function LargestBudget(budget: u32, calls: seq<Call>, bead: Id): u32 {
    if calls == [] then budget
    else
      var last := |calls| - 1;
      var now, before := After(budget, calls).budget, LargestBudget(budget, calls[..last], bead);
      if calls[last] == Forget(bead) || before < now then now else before
  }

  /** The counter is the number of restarts really ordered, and it never passes the largest budget. */
  lemma {:induction false} RestartsBounded(budget: u32, calls: seq<Call>, bead: Id)
    ensures RestartsOrdered(budget, calls, bead) == StateOf(After(budget, calls), bead).restarts
    ensures RestartsOrdered(budget, calls, bead) <= LargestBudget(budget, calls, bead)
    ensures After(budget, calls).budget <= LargestBudget(budget, calls, bead)
    decreases |calls|
  {
    if calls != [] {
      RestartsBounded(budget, calls[..|calls| - 1], bead);
    }
  }

  /** A delivered or an undeliverable nudge of `bead`. */
  predicate NudgeTried(budget: u32, calls: seq<Call>, k: nat, bead: Id)
    requires k < |calls|
  {
    Answered(budget, calls, k, bead, Nudge) || calls[k] == NudgeFailed(bead)
  }

  /** Unless a nudge was tried since `from`, where the ladder stood at its nudge rung, it still does. */
  lemma {:induction false} StillAtNudge(budget: u32, calls: seq<Call>, from: nat, n: nat, bead: Id)
    requires from <= n <= |calls|
    requires StateOf(After(budget, calls[..from]), bead).next == NextNudge
    requires forall k :: from <= k < n ==> !NudgeTried(budget, calls, k, bead)
    ensures StateOf(After(budget, calls[..n]), bead).next == NextNudge
    decreases n
  {
    if n > from {
      StillAtNudge(budget, calls, from, n - 1, bead);
      assert calls[..n][..n - 1] == calls[..n - 1];
      assert !NudgeTried(budget, calls, n - 1, bead);
    }
  }

  /** Before every restart a nudge was tried, and again between any two restarts of a bead. */
  lemma RestartNeedsNudge(budget: u32, calls: seq<Call>, j: nat, bead: Id)
    requires j < |calls| && Answered(budget, calls, j, bead, Restart)
    ensures exists k :: 0 <= k < j && NudgeTried(budget, calls, k, bead)
    ensures forall i :: 0 <= i < j && Answered(budget, calls, i, bead, Restart) ==>
              exists k :: i < k < j && NudgeTried(budget, calls, k, bead)
  {
    if forall k :: 0 <= k < j ==> !NudgeTried(budget, calls, k, bead) {
      assert calls[..0] == [];
      StillAtNudge(budget, calls, 0, j, bead);
    }
    forall i | 0 <= i < j && Answered(budget, calls, i, bead, Restart)
      ensures exists k :: i < k < j && NudgeTried(budget, calls, k, bead)
    {
      assert calls[..i + 1][..i] == calls[..i];
      if forall k :: i < k < j ==> !NudgeTried(budget, calls, k, bead) {
        StillAtNudge(budget, calls, i + 1, j, bead);
      }
    }
  }

  /** What sends the ladder of `bead` back to its nudge rung. */
  predicate Rewinds(budget: u32, calls: seq<Call>, k: nat, bead: Id)
    requires k < |calls|
  {
    calls[k] == OnActivity(bead) || calls[k] == Forget(bead) || Answered(budget, calls, k, bead, Restart)
  }

  /** A nudge of `bead` was tried and nothing has rewound its ladder since. */
  ghost predicate NudgePending(budget: u32, calls: seq<Call>, bead: Id) {
    exists k :: NudgeStands(budget, calls, k, bead)
  }

  ghost predicate NudgeStands(budget: u32, calls: seq<Call>, k: int, bead: Id) {
    && 0 <= k < |calls| && NudgeTried(budget, calls, k, bead)
    && forall j :: k < j < |calls| ==> !Rewinds(budget, calls, j, bead)
  }

  lemma StandsAfterOneMore(budget: u32, calls: seq<Call>, k: int, bead: Id)
    requires calls != [] && k < |calls| - 1
    ensures NudgeStands(budget, calls, k, bead) <==>
            NudgeStands(budget, calls[..|calls| - 1], k, bead) && !Rewinds(budget, calls, |calls| - 1, bead)
  {
    var init := calls[..|calls| - 1];
    forall j | 0 <= j < |init|
      ensures init[..j] == calls[..j] && init[j] == calls[j]
    {
    }
    if NudgeStands(budget, init, k, bead) && !Rewinds(budget, calls, |calls| - 1, bead) {
      forall j | k < j < |calls|
        ensures !Rewinds(budget, calls, j, bead)
      {
        assert j < |init| ==> !Rewinds(budget, init, j, bead);
      }
    }
    if NudgeStands(budget, calls, k, bead) {
      forall j | k < j < |init|
        ensures !Rewinds(budget, init, j, bead)
      {
        assert !Rewinds(budget, calls, j, bead);
      }
    }
  }

  lemma {:induction false} RungIsHistory(budget: u32, calls: seq<Call>, bead: Id)
    ensures StateOf(After(budget, calls), bead).next == NextRestart <==> NudgePending(budget, calls, bead)
    ensures NudgePending(budget, calls, bead) ==> bead in After(budget, calls).states
    decreases |calls|
  {
    if calls != [] {
      var last := |calls| - 1;
      RungIsHistory(budget, calls[..last], bead);
      forall k | k < last
        ensures NudgeStands(budget, calls, k, bead) <==>
                NudgeStands(budget, calls[..last], k, bead) && !Rewinds(budget, calls, last, bead)
      {
        StandsAfterOneMore(budget, calls, k, bead);
      }
      assert NudgeStands(budget, calls, last, bead) <==> NudgeTried(budget, calls, last, bead);
    }
  }

  /** What a fire answers, read off the history alone: a nudge unless one is pending, else a restart
      while fewer were ordered than the budget now in force, else exhausted. */
  lemma FireAnswersByHistory(budget: u32, calls: seq<Call>, bead: Id)
    ensures Act(After(budget, calls), bead) ==
            if !NudgePending(budget, calls, bead) then Nudge
            else if RestartsOrdered(budget, calls, bead) < After(budget, calls).budget then Restart
            else Exhausted
  {
    RungIsHistory(budget, calls, bead);
    RestartsBounded(budget, calls, bead);
  }

  /** The budget in force is the one last set, or the one the table was made with. */
  lemma {:induction false} BudgetIsLastSet(budget: u32, calls: seq<Call>)
    ensures match LastBudget(calls)
            case None => After(budget, calls).budget == budget
            case Some(b) => After(budget, calls).budget == b
    decreases |calls|
  {
    if calls != [] {
      BudgetIsLastSet(budget, calls[..|calls| - 1]);
    }
  }

  function LastBudget(calls: seq<Call>): Option<u32> {
    if calls == [] then None
    else if calls[|calls| - 1].SetRestartBudget? then Some(calls[|calls| - 1].budget)
    else LastBudget(calls[..|calls| - 1])
  }

  lemma {:induction false} Pow2Monotone(m: nat, n: nat)
    requires m <= n
    ensures 1 <= Pow2(m) <= Pow2(n)
    decreases n
  {
    if m < n {
      Pow2Monotone(m, n - 1);
    } else if m > 0 {
      Pow2Monotone(m - 1, n - 1);
    }
  }

  lemma ScaleMonotone(base: int, m: nat, n: nat)
    requires base > 0 && m <= n
    ensures 0 < base * m || m == 0
    ensures base * m <= base * n
  {
  }

  /** For a positive base the threshold is `base * 2^min(restarts, 20)`, cut off at the largest duration. */
  lemma ThresholdIsScaledBase(s: Snapshot, bead: Id, base: int)
    requires 0 < base <= MAX_DURATION
    ensures var restarts := StateOf(s, bead).restarts;
            var scaled := base * Pow2(if restarts < 20 then restarts else 20);
            EffectiveThreshold(s, bead, base) == if scaled <= MAX_DURATION then scaled else MAX_DURATION
  {
    var restarts := StateOf(s, bead).restarts;
    var k := if restarts < 20 then restarts else 20;
    Pow2Monotone(0, k);
    ScaleMonotone(base, 1, Pow2(k));
  }

  /** Until a bead is forgotten its threshold never falls, whatever is called. */
  lemma {:induction false} ThresholdNeverFalls(budget: u32, calls: seq<Call>, from: nat, bead: Id, base: int)
    requires 0 < base <= MAX_DURATION && from <= |calls|
    requires forall k :: from <= k < |calls| ==> calls[k] != Forget(bead)
    ensures EffectiveThreshold(After(budget, calls[..from]), bead, base) <=
            EffectiveThreshold(After(budget, calls), bead, base)
    decreases |calls|
  {
    if from == |calls| {
      assert calls[..from] == calls;
    } else {
      var init := calls[..|calls| - 1];
      assert init[..from] == calls[..from];
      ThresholdNeverFalls(budget, init, from, bead, base);
      var s, t := After(budget, init), After(budget, calls);
      var m, n := StateOf(s, bead).restarts, StateOf(t, bead).restarts;
      assert calls[|calls| - 1] != Forget(bead);
      ThresholdIsScaledBase(s, bead, base);
      ThresholdIsScaledBase(t, bead, base);
      Pow2Monotone(if m < 20 then m else 20, if n < 20 then n else 20);
      ScaleMonotone(base, Pow2(if m < 20 then m else 20), Pow2(if n < 20 then n else 20));
    }
  }
}
