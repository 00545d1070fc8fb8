/**
 queryAll as a concurrent protocol: the caller starts one goroutine for each server, at most
 MAX_FANOUT of them hold a permit at a time, each writes its own slot, and the caller waits
 for all of them.
 */
module Fanout {
  import opened Reply

  const MAX_FANOUT := 16

  /** Where a server's goroutine is. A permit is taken for it before it starts. */
  datatype Phase =
    | Unborn      // the caller has not reached it
    | Counted     // wg.Add(1) done, no permit yet
    | Granted     // permit taken, not yet started
    | Querying    // started, the query is under way
    | Answered    // the query has returned
    | Stored      // results[i] is written
    | Released    // permit given back (first deferred call)
    | Finished    // wg.Done() (second deferred call)

  datatype Slot = Empty | Filled(outcome: Outcome)

  /** `next` is the caller's loop index; `returned` when it has come back from wg.Wait(). */
  datatype State = State(next: nat, returned: bool, phase: seq<Phase>, sem: int, wg: int, results: seq<Slot>)

  /** What the server asked by goroutine i answers in this run. */
  type Answers = seq<Outcome>

  ghost predicate Init(s: State, n: nat) {
    && s.next == 0 && !s.returned && s.sem == 0 && s.wg == 0
    && s.phase == seq(n, _ => Unborn) && s.results == seq(n, _ => Empty)
  }

  // ---------------------------------------------------------------- steps

  datatype Action = Add | Acquire | Spawn | Wait
    | Answer(i: nat) | Store(i: nat) | Release(i: nat) | Done(i: nat)

  /** The loop index when the caller is between wg.Add and the go statement. */
  predicate AtServer(s: State, p: Phase) {
    s.next < |s.phase| && s.phase[s.next] == p
  }

  predicate Enabled(s: State, a: Action) {
    match a
    case Add => AtServer(s, Unborn)
    case Acquire => AtServer(s, Counted) && s.sem < MAX_FANOUT
    case Spawn => AtServer(s, Granted)
    case Wait => s.next == |s.phase| && s.wg == 0 && !s.returned
    case Answer(i) => i < |s.phase| && s.phase[i] == Querying
    case Store(i) => i < |s.phase| && s.phase[i] == Answered
    case Release(i) => i < |s.phase| && s.phase[i] == Stored && s.sem > 0
    case Done(i) => i < |s.phase| && s.phase[i] == Released
  }

  function Step(s: State, a: Action, answers: Answers): State
    requires Enabled(s, a) && |answers| == |s.phase| == |s.results|
  {
    match a
    case Add => s.(phase := s.phase[s.next := Counted], wg := s.wg + 1)
    case Acquire => s.(phase := s.phase[s.next := Granted], sem := s.sem + 1)
    case Spawn => s.(phase := s.phase[s.next := Querying], next := s.next + 1)
    case Wait => s.(returned := true)
    case Answer(i) => s.(phase := s.phase[i := Answered])
    case Store(i) => s.(phase := s.phase[i := Stored], results := s.results[i := Filled(answers[i])])
    case Release(i) => s.(phase := s.phase[i := Released], sem := s.sem - 1)
    case Done(i) => s.(phase := s.phase[i := Finished], wg := s.wg - 1)
  }

  // ---------------------------------------------------------------- counting

  predicate HoldsPermit(p: Phase) {
    p == Granted || p == Querying || p == Answered || p == Stored
  }

  predicate IsAwaited(p: Phase) {
    p != Unborn && p != Finished
  }

  predicate IsQuerying(p: Phase) {
    p == Querying
  }

  /** How many steps a goroutine in this phase still has before it. */
  function StepsLeft(p: Phase): nat {
    match p
    case Unborn => 7 case Counted => 6 case Granted => 5 case Querying => 4
    case Answered => 3 case Stored => 2 case Released => 1 case Finished => 0
  }

  function Count(phase: seq<Phase>, held: Phase -> bool): nat {
    if phase == [] then 0 else (if held(phase[0]) then 1 else 0) + Count(phase[1..], held)
  }

  function Sum(phase: seq<Phase>): nat {
    if phase == [] then 0 else StepsLeft(phase[0]) + Sum(phase[1..])
  }

  lemma {:induction false} CountUpdate(phase: seq<Phase>, i: nat, p: Phase, held: Phase -> bool)
    requires i < |phase|
    ensures Count(phase[i := p], held)
         == Count(phase, held) - (if held(phase[i]) then 1 else 0) + (if held(p) then 1 else 0)
  {
    if i == 0 {
      assert phase[0 := p][1..] == phase[1..];
    } else {
      assert phase[i := p][1..] == phase[1..][i - 1 := p];
      CountUpdate(phase[1..], i - 1, p, held);
    }
  }

  lemma {:induction false} SumUpdate(phase: seq<Phase>, i: nat, p: Phase)
    requires i < |phase|
    ensures Sum(phase[i := p]) == Sum(phase) - StepsLeft(phase[i]) + StepsLeft(p)
  {
    if i == 0 {
      assert phase[0 := p][1..] == phase[1..];
    } else {
      assert phase[i := p][1..] == phase[1..][i - 1 := p];
      SumUpdate(phase[1..], i - 1, p);
    }
  }

  lemma {:induction false} CountZero(phase: seq<Phase>, held: Phase -> bool)
    ensures Count(phase, held) == 0 <==> forall i :: 0 <= i < |phase| ==> !held(phase[i])
  {
    if phase != [] {
      CountZero(phase[1..], held);
      if forall i :: 0 <= i < |phase| ==> !held(phase[i]) {
        forall i | 0 <= i < |phase| - 1 ensures !held(phase[1..][i]) {
          assert phase[1..][i] == phase[i + 1];
        }
      }
      if Count(phase, held) == 0 {
        forall i | 0 <= i < |phase| ensures !held(phase[i]) {
          assert i > 0 ==> phase[i] == phase[1..][i - 1];
        }
      }
    }
  }

  lemma {:induction false} CountLess(phase: seq<Phase>, held: Phase -> bool, than: Phase -> bool)
    requires forall p :: held(p) ==> than(p)
    ensures Count(phase, held) <= Count(phase, than)
  {
    if phase != [] {
      CountLess(phase[1..], held, than);
    }
  }

  // ---------------------------------------------------------------- the invariant

  /** The permits taken and the wait group's counter agree with what the goroutines are doing. */
  ghost predicate Accounted(s: State) {
    && s.sem == Count(s.phase, HoldsPermit) && s.sem <= MAX_FANOUT
    && s.wg == Count(s.phase, IsAwaited)
  }

  /** Goroutines are started in order, and each slot is filled once its own goroutine has stored. */
  ghost predicate Shaped(s: State, answers: Answers) {
    && |s.phase| == |s.results| == |answers|
    && s.next <= |s.phase|
    && (forall i :: 0 <= i < s.next ==> StepsLeft(s.phase[i]) <= 4)
    && (forall i :: s.next < i < |s.phase| ==> s.phase[i] == Unborn)
    && (s.next < |s.phase| ==> StepsLeft(s.phase[s.next]) >= 5)
    && (forall i :: 0 <= i < |s.phase| ==>
          s.results[i] == if StepsLeft(s.phase[i]) <= 2 then Filled(answers[i]) else Empty)
    && (s.returned ==> s.next == |s.phase| && s.wg == 0)
  }

  ghost predicate Inv(s: State, answers: Answers) {
    Accounted(s) && Shaped(s, answers)
  }

  lemma InitInv(s: State, answers: Answers)
    requires Init(s, |answers|)
    ensures Inv(s, answers)
  {
    CountZero(s.phase, HoldsPermit);
    CountZero(s.phase, IsAwaited);
  }

  /** Which entry of `phase` a step changes; |phase| for none. */
  function Mover(s: State, a: Action): nat {
    match a
    case Add => s.next
    case Acquire => s.next
    case Spawn => s.next
    case Wait => |s.phase|
    case Answer(i) => i
    case Store(i) => i
    case Release(i) => i
    case Done(i) => i
  }

  lemma StepAccounted(s: State, a: Action, answers: Answers)
    requires Inv(s, answers) && Enabled(s, a)
    ensures Accounted(Step(s, a, answers))
  {
    var t := Step(s, a, answers);
    var i := Mover(s, a);
    if i < |s.phase| {
      CountUpdate(s.phase, i, t.phase[i], HoldsPermit);
      CountUpdate(s.phase, i, t.phase[i], IsAwaited);
      assert t.phase == s.phase[i := t.phase[i]];
    }
  }

  /** Once the caller has come back nothing moves any more. */
  lemma ReturnedIsFinal(s: State, a: Action, answers: Answers)
    requires Inv(s, answers) && s.returned
    ensures !Enabled(s, a)
  {
    CountZero(s.phase, IsAwaited);
    if 0 <= Mover(s, a) < |s.phase| {
      assert !IsAwaited(s.phase[Mover(s, a)]);
    }
  }

  predicate IsCallers(a: Action) {
    a.Add? || a.Acquire? || a.Spawn? || a.Wait?
  }

  lemma CallerKeepsShape(s: State, a: Action, answers: Answers)
    requires Shaped(s, answers) && !s.returned && IsCallers(a) && Enabled(s, a)
    ensures Shaped(Step(s, a, answers), answers)
  {
  }

  lemma GoroutineKeepsShape(s: State, a: Action, answers: Answers)
    requires Shaped(s, answers) && !s.returned && !IsCallers(a) && Enabled(s, a)
    ensures Shaped(Step(s, a, answers), answers)
  {
  }

  /** Every step of the caller and of every goroutine keeps the invariant. */
  lemma StepInv(s: State, a: Action, answers: Answers)
    requires Inv(s, answers) && Enabled(s, a)
    ensures Inv(Step(s, a, answers), answers)
  {
    StepAccounted(s, a, answers);
    if s.returned {
      ReturnedIsFinal(s, a, answers);
    } else if IsCallers(a) {
      CallerKeepsShape(s, a, answers);
    } else {
      GoroutineKeepsShape(s, a, answers);
    }
  }

  // ---------------------------------------------------------------- runs

  /** A run: the states an interleaving of enabled actions goes through. */
  ghost predicate IsRun(states: seq<State>, actions: seq<Action>, answers: Answers) {
    && |states| == |actions| + 1
    && Init(states[0], |answers|)
    && forall k :: 0 <= k < |actions| ==> IsStep(states[k], actions[k], states[k + 1], answers)
  }

  ghost predicate IsStep(s: State, a: Action, t: State, answers: Answers) {
    && |answers| == |s.phase| == |s.results|
    && Enabled(s, a) && t == Step(s, a, answers)
  }

  lemma {:induction false} RunInv(states: seq<State>, actions: seq<Action>, answers: Answers, k: nat)
    requires IsRun(states, actions, answers) && k < |states|
    ensures Inv(states[k], answers)
  {
    if k == 0 {
      InitInv(states[0], answers);
    } else {
      RunInv(states, actions, answers, k - 1);
      assert IsStep(states[k - 1], actions[k - 1], states[k], answers);
      StepInv(states[k - 1], actions[k - 1], answers);
    }
  }

  /** In every state of every run at most sixteen queries are under way, all of them with a permit. */
  lemma AtMostMaxFanoutQueries(states: seq<State>, actions: seq<Action>, answers: Answers, k: nat)
    requires IsRun(states, actions, answers) && k < |states|
    ensures Count(states[k].phase, IsQuerying) <= states[k].sem <= 16
    ensures states[k].sem == Count(states[k].phase, HoldsPermit) >= 0
    ensures states[k].wg == Count(states[k].phase, IsAwaited) >= 0
  {
    RunInv(states, actions, answers, k);
    CountLess(states[k].phase, IsQuerying, HoldsPermit);
  }

  /** The caller waits for a permit exactly while sixteen goroutines hold one. */
  lemma WaitsOnlyWhenFull(states: seq<State>, actions: seq<Action>, answers: Answers, k: nat)
    requires IsRun(states, actions, answers) && k < |states| && AtServer(states[k], Counted)
    ensures Enabled(states[k], Acquire) <==> Count(states[k].phase, HoldsPermit) != 16
  {
    RunInv(states, actions, answers, k);
  }

  /** A slot changes only in its own goroutine's Store step, from empty to that server's answer. */
  lemma SlotWrittenOnceByOwner(states: seq<State>, actions: seq<Action>, answers: Answers, k: nat, i: nat)
    requires IsRun(states, actions, answers) && k < |actions| && i < |answers|
    ensures |states[k].results| == |states[k + 1].results| == |answers|
    ensures states[k + 1].results[i] != states[k].results[i] <==> actions[k] == Store(i)
    ensures actions[k] == Store(i) ==>
              states[k].results[i] == Empty && states[k + 1].results[i] == Filled(answers[i])
  {
    RunInv(states, actions, answers, k);
    RunInv(states, actions, answers, k + 1);
    assert IsStep(states[k], actions[k], states[k + 1], answers);
  }

  // ---------------------------------------------------------------- progress

  /** No state is stuck before the caller returns: some action is enabled. */
  lemma NeverStuck(s: State, answers: Answers) returns (a: Action)
    requires Inv(s, answers) && !s.returned
    ensures Enabled(s, a)
  {
    if s.next < |s.phase| && s.phase[s.next] == Unborn {
      a := Add;
    } else if s.next < |s.phase| && s.phase[s.next] == Granted {
      a := Spawn;
    } else if s.next < |s.phase| && s.sem < MAX_FANOUT {
      a := Acquire;
    } else if s.next < |s.phase| {
      // all permits are taken, so some goroutine before `next` can move
      CountZero(s.phase, HoldsPermit);
      var i :| 0 <= i < |s.phase| && HoldsPermit(s.phase[i]);
      a := MoveOf(s, i, answers);
    } else if s.wg > 0 {
      CountZero(s.phase, IsAwaited);
      var i :| 0 <= i < |s.phase| && IsAwaited(s.phase[i]);
      a := MoveOf(s, i, answers);
    } else {
      a := Wait;
    }
  }

  /** A started goroutine that has not finished has an enabled step. */
  lemma MoveOf(s: State, i: nat, answers: Answers) returns (a: Action)
    requires Inv(s, answers) && i < |s.phase| && 0 < StepsLeft(s.phase[i]) <= 4
    ensures Enabled(s, a)
  {
    match s.phase[i]
    case Querying => a := Answer(i);
    case Answered => a := Store(i);
    case Stored =>
      CountZero(s.phase, HoldsPermit);
      a := Release(i);
    case Released => a := Done(i);
  }

  /** Steps left in the whole run. */
  function Measure(s: State): nat {
    Sum(s.phase) + if s.returned then 0 else 1
  }

  lemma StepDecreases(s: State, a: Action, answers: Answers)
    requires Inv(s, answers) && Enabled(s, a)
    ensures Measure(Step(s, a, answers)) == Measure(s) - 1
  {
    var t := Step(s, a, answers);
    var i := Mover(s, a);
    if i < |s.phase| {
      SumUpdate(s.phase, i, t.phase[i]);
      assert t.phase == s.phase[i := t.phase[i]];
    }
  }

  lemma {:induction false} InitialMeasure(phase: seq<Phase>)
    requires forall i :: 0 <= i < |phase| ==> phase[i] == Unborn
    ensures Sum(phase) == 7 * |phase|
  {
    if phase != [] {
      forall i | 0 <= i < |phase| - 1 ensures phase[1..][i] == Unborn {
        assert phase[1..][i] == phase[i + 1];
      }
      InitialMeasure(phase[1..]);
    }
  }

  lemma {:induction false} RunMeasure(states: seq<State>, actions: seq<Action>, answers: Answers, k: nat)
    requires IsRun(states, actions, answers) && k < |states|
    ensures Measure(states[k]) + k == 7 * |answers| + 1
  {
    if k == 0 {
      InitialMeasure(states[0].phase);
    } else {
      RunMeasure(states, actions, answers, k - 1);
      RunInv(states, actions, answers, k - 1);
      assert IsStep(states[k - 1], actions[k - 1], states[k], answers);
      StepDecreases(states[k - 1], actions[k - 1], answers);
    }
  }

  lemma {:induction false} SumZero(phase: seq<Phase>)
    ensures Sum(phase) == 0 <==> forall i :: 0 <= i < |phase| ==> phase[i] == Finished
  {
    if phase != [] {
      SumZero(phase[1..]);
      if Sum(phase) == 0 {
        forall i | 0 <= i < |phase| ensures phase[i] == Finished {
          assert i > 0 ==> phase[i] == phase[1..][i - 1];
        }
      }
      if forall i :: 0 <= i < |phase| ==> phase[i] == Finished {
        forall i | 0 <= i < |phase| - 1 ensures phase[1..][i] == Finished {
          assert phase[1..][i] == phase[i + 1];
        }
      }
    }
  }

  /**
   Every run, whatever the interleaving, has at most 7n + 1 steps; it can be continued until the
   caller returns, which is exactly at step 7n + 1; and then no permit is held, no goroutine is
   left, and the results are, server by server, the answers.
   */
  lemma EveryRunReturnsAllAnswers(states: seq<State>, actions: seq<Action>, answers: Answers)
    requires IsRun(states, actions, answers)
    ensures |actions| <= 7 * |answers| + 1
    ensures var last := states[|actions|];
      && (last.returned <==> |actions| == 7 * |answers| + 1)
      && (!last.returned ==> exists a :: Enabled(last, a))
      && (last.returned ==>
           && last.sem == 0 && last.wg == 0
           && |last.results| == |answers|
           && forall i :: 0 <= i < |answers| ==> last.results[i] == Filled(answers[i]))
  {
    var last := states[|actions|];
    RunInv(states, actions, answers, |actions|);
    RunMeasure(states, actions, answers, |actions|);
    if last.returned {
      CountZero(last.phase, IsAwaited);
      forall i | 0 <= i < |last.phase| ensures last.phase[i] == Finished {
        assert !IsAwaited(last.phase[i]);
        assert StepsLeft(last.phase[i]) <= 4;
      }
      SumZero(last.phase);
      CountZero(last.phase, HoldsPermit);
    } else {
      var a := NeverStuck(last, answers);
    }
  }

  lemma ExtendRun(states: seq<State>, actions: seq<Action>, answers: Answers, a: Action)
    returns (more: seq<State>)
    requires IsRun(states, actions, answers) && Inv(states[|actions|], answers) && Enabled(states[|actions|], a)
    ensures more == states + [Step(states[|actions|], a, answers)]
    ensures IsRun(more, actions + [a], answers)
  {
    var all := actions + [a];
    more := states + [Step(states[|actions|], a, answers)];
    forall k | 0 <= k < |all| ensures IsStep(more[k], all[k], more[k + 1], answers) {
      if k < |actions| {
        assert IsStep(states[k], actions[k], states[k + 1], answers);
        assert more[k] == states[k] && more[k + 1] == states[k + 1] && all[k] == actions[k];
      }
    }
  }

  /** All servers' queries but the first k are still to come. */
  ghost predicate UnderWay(s: State, k: nat) {
    && k <= |s.phase| && s.next == k && s.sem == k && !s.returned
    && (forall i :: 0 <= i < |s.phase| ==> s.phase[i] == if i < k then Querying else Unborn)
    && Count(s.phase, IsQuerying) == k
  }

  /** Starting one more goroutine takes three steps of the caller. */
  lemma StartNext(states: seq<State>, actions: seq<Action>, answers: Answers, k: nat)
    returns (allStates: seq<State>, allActions: seq<Action>)
    requires IsRun(states, actions, answers) && UnderWay(states[|actions|], k) && k < |answers| && k < 16
    ensures IsRun(allStates, allActions, answers) && allActions == actions + [Add] + [Acquire] + [Spawn]
    ensures UnderWay(allStates[|allActions|], k + 1)
  {
    var s := states[|actions|];
    RunInv(states, actions, answers, |actions|);
    CountUpdate(s.phase, k, Querying, IsQuerying);
    var states1 := ExtendRun(states, actions, answers, Add);
    var actions1 := actions + [Add];
    RunInv(states1, actions1, answers, |actions1|);
    var states2 := ExtendRun(states1, actions1, answers, Acquire);
    var actions2 := actions1 + [Acquire];
    RunInv(states2, actions2, answers, |actions2|);
    allStates := ExtendRun(states2, actions2, answers, Spawn);
    allActions := actions2 + [Spawn];
    assert allStates[|allActions|].phase == s.phase[k := Querying];
  }

  /** Queries do run side by side: some run has as many under way as there are servers, up to sixteen. */
  lemma {:induction false} SideBySide(answers: Answers, k: nat) returns (states: seq<State>, actions: seq<Action>)
    requires k <= |answers| && k <= 16
    ensures IsRun(states, actions, answers) && UnderWay(states[|actions|], k)
  {
    if k == 0 {
      var s := State(0, false, seq(|answers|, _ => Unborn), 0, 0, seq(|answers|, _ => Empty));
      states, actions := [s], [];
      CountZero(s.phase, IsQuerying);
    } else {
      var before, did := SideBySide(answers, k - 1);
      RunInv(before, did, answers, |did|);
      states, actions := StartNext(before, did, answers, k - 1);
    }
  }

  /** Every run, however it began, can be continued to one in which the caller has returned with all answers. */
  lemma {:induction false} EveryRunCanBeCompleted(states: seq<State>, actions: seq<Action>, answers: Answers)
    returns (allStates: seq<State>, allActions: seq<Action>)
    requires IsRun(states, actions, answers)
    ensures IsRun(allStates, allActions, answers) && states <= allStates && actions <= allActions
    ensures |allActions| == 7 * |answers| + 1 && allStates[|allActions|].returned
    ensures |allStates[|allActions|].results| == |answers|
    ensures forall i :: 0 <= i < |answers| ==> allStates[|allActions|].results[i] == Filled(answers[i])
    decreases 7 * |answers| + 1 - |actions|
  {
    EveryRunReturnsAllAnswers(states, actions, answers);
    if states[|actions|].returned {
      allStates, allActions := states, actions;
    } else {
      RunInv(states, actions, answers, |actions|);
      var a := NeverStuck(states[|actions|], answers);
      var more := ExtendRun(states, actions, answers, a);
      EveryRunReturnsAllAnswers(more, actions + [a], answers);
      allStates, allActions := EveryRunCanBeCompleted(more, actions + [a], answers);
    }
  }
}
