/** The futex event between the thread filler, its one waiter, and the callers that wake it,
    and the flag on which a caller without a thread waits for the filler. */
module EventHandoff {

  /** Filling: in a pass, before it looks at the flag. Done: past the last look of the pass,
      about to wait. Drowsy: the counter was zero and is decremented, the sleep is next. */
  datatype Filler = Filling | Done | Drowsy | Sleeping

  /** Pool callers wake one at a time, under the pool's lock. One that waits holds the flag's
      lock from before the wake until it sleeps on the flag. */
  datatype Caller = Idle | Paying(owes: bool, waits: bool) | Flagging | Waiting

  /** Owed counts the other wakers that incremented and still have to issue their wake-up. */
  datatype State = State(counter: int, filler: Filler, owed: nat, caller: Caller, flag: bool, debt: bool)

  datatype Action =
    | OtherWake | OtherPay
    | CallerWake(waits: bool) | CallerPay | CallerFlag | CallerResume
    | FillerCheck(last: bool) | FillerWait | FillerSleep
    | Interrupt

  const START: State := State(0, Filling, 0, Idle, false, false)

  predicate FlagLocked(s: State) {
    s.caller.Flagging? || (s.caller.Paying? && s.caller.waits)
  }

  predicate Enabled(s: State, a: Action) {
    match a
    case OtherWake => true
    case OtherPay => s.owed > 0
    case CallerWake(_) => s.caller.Idle?
    case CallerPay => s.caller.Paying?
    case CallerFlag => s.caller.Flagging?
    case CallerResume => s.caller.Waiting? && !s.flag
    case FillerCheck(_) => s.filler.Filling? && !FlagLocked(s)
    case FillerWait => s.filler.Done?
    case FillerSleep => s.filler.Drowsy?
    case Interrupt => s.filler.Sleeping?
  }

  /** A wake-up reaches the filler only while it sleeps. If the counter is still -1 then, the
      wake-up was not for this sleep, and the counter stays in debt. */
  function Rouse(s: State): State {
    if s.filler.Sleeping? then s.(filler := Filling, debt := s.debt || s.counter == -1) else s
  }

  function Step(s: State, a: Action): State {
    match a
    case OtherWake => s.(counter := s.counter + 1, owed := s.owed + if s.counter != 0 then 1 else 0)
    case OtherPay => if s.owed > 0 then Rouse(s.(owed := s.owed - 1)) else s
    case CallerWake(waits) => s.(counter := s.counter + 1, caller := Paying(s.counter != 0, waits))
    case CallerPay =>
      if !s.caller.Paying? then s
      else
        var next := s.(caller := if s.caller.waits then Flagging else Idle);
        if s.caller.owes then Rouse(next) else next
    case CallerFlag => s.(flag := true, caller := Waiting)
    case CallerResume => s.(caller := Idle)
    case FillerCheck(last) => s.(flag := false, filler := if last then Done else Filling)
    case FillerWait => s.(counter := s.counter - 1, filler := if s.counter == 0 then Drowsy else Filling)
    case FillerSleep => s.(filler := if s.counter == -1 then Sleeping else Filling)
    case Interrupt => Rouse(s)
  }

  predicate IsOwed(s: State) {
    s.owed > 0 || (s.caller.Paying? && s.caller.owes)
  }

  // ----- no wake-up is lost on a sleeper -----

  predicate Inv(s: State) {
    && (s.filler.Drowsy? ==> s.counter >= -1)
    && (s.filler.Sleeping? ==> s.counter == -1 || (s.counter > -1 && IsOwed(s)))
    && (s.flag ==> s.caller.Waiting?)
    && (!s.debt && (s.filler.Filling? || s.filler.Done?) ==> s.counter >= 0)
  }

  lemma StepInv(s: State, a: Action)
    requires Inv(s) && Enabled(s, a)
    ensures Inv(Step(s, a)) && (s.debt ==> Step(s, a).debt)
  {
  }

  ghost predicate RunsTo(s: State, actions: seq<Action>, last: State)
    decreases |actions|
  {
    if actions == [] then s == last
    else Enabled(s, actions[0]) && RunsTo(Step(s, actions[0]), actions[1..], last)
  }

  lemma {:induction false} RunInv(s: State, actions: seq<Action>, last: State)
    requires Inv(s) && RunsTo(s, actions, last)
    ensures Inv(last)
    decreases |actions|
  {
    if actions != [] {
      StepInv(s, actions[0]);
      RunInv(Step(s, actions[0]), actions[1..], last);
    }
  }

  /** In every run, a sleeping waiter means the counter is -1 or some waker still owes it a
      wake-up. */
  lemma SleeperIsOwedOrUnwoken(actions: seq<Action>, last: State)
    requires RunsTo(START, actions, last) && last.filler.Sleeping?
    ensures last.counter == -1 || IsOwed(last)
  {
    RunInv(START, actions, last);
  }

  // ----- the flag -----

  /** The filler is before a look at the flag, or has a token or a wake-up that brings it to one. */
  predicate Attentive(s: State) {
    match s.filler
    case Filling => true
    case Done => s.counter != 0
    case Drowsy => s.counter != -1
    case Sleeping => IsOwed(s)
  }

  /** A caller has woken the filler for the flag, and the flag was not answered yet. */
  predicate Wanted(s: State) {
    FlagLocked(s) || s.flag
  }

  predicate IsWake(a: Action) {
    a.OtherWake? || a.CallerWake?
  }

  /** A wake that may be lost: it finds the filler about to wait with the counter at -1, and
      brings it to the zero at which the filler goes to sleep. */
  predicate Misses(s: State, a: Action) {
    IsWake(a) && s.filler.Done? && s.counter == -1
  }

  /** A wake leaves the filler without a token exactly if it is such a one. */
  lemma WakeLeavesToken(s: State, a: Action)
    requires Inv(s) && Enabled(s, a) && IsWake(a)
    ensures Attentive(Step(s, a)) <==> !Misses(s, a)
  {
  }

  /** Until the flag is answered, nothing but such a wake takes the token away. */
  lemma StaysAttentive(s: State, a: Action)
    requires Inv(s) && Enabled(s, a) && !Misses(s, a)
    requires Wanted(s) ==> Attentive(s)
    ensures Wanted(Step(s, a)) ==> Attentive(Step(s, a))
  {
  }

  /** In every state of the run from s, a wanted filler has a token or a look ahead of it. */
  ghost predicate AlwaysAttentive(s: State, actions: seq<Action>)
    decreases |actions|
  {
    && (Wanted(s) ==> Attentive(s))
    && (actions != [] ==> AlwaysAttentive(Step(s, actions[0]), actions[1..]))
  }

  /** No wake of the run finds the filler about to wait at -1 and leaves a caller that wants it. */
  ghost predicate NoWantedMiss(s: State, actions: seq<Action>)
    decreases |actions|
  {
    actions == [] ||
    (&& !(Misses(s, actions[0]) && Wanted(Step(s, actions[0])))
     && NoWantedMiss(Step(s, actions[0]), actions[1..]))
  }

  lemma {:induction false} AttentiveIff(s: State, actions: seq<Action>, last: State)
    requires Inv(s) && (Wanted(s) ==> Attentive(s)) && RunsTo(s, actions, last)
    ensures AlwaysAttentive(s, actions) <==> NoWantedMiss(s, actions)
    decreases |actions|
  {
    if actions != [] {
      var a := actions[0];
      StepInv(s, a);
      if Misses(s, a) {
        WakeLeavesToken(s, a);
      } else {
        StaysAttentive(s, a);
      }
      if !(Misses(s, a) && Wanted(Step(s, a))) {
        AttentiveIff(Step(s, a), actions[1..], last);
      }
    }
  }

  /** For every run: whenever a caller waits for the flag there is a token or a look ahead, if
      and only if no wake of the run found the filler about to wait at -1 with the flag wanted. */
  lemma FlagIsAnsweredIff(actions: seq<Action>, last: State)
    requires RunsTo(START, actions, last)
    ensures AlwaysAttentive(START, actions) <==> NoWantedMiss(START, actions)
  {
    AttentiveIff(START, actions, last);
  }

  lemma {:induction false} WithoutDebtNoneIsMissed(s: State, actions: seq<Action>, last: State)
    requires Inv(s) && RunsTo(s, actions, last) && !last.debt
    ensures NoWantedMiss(s, actions) && !s.debt
    decreases |actions|
  {
    if actions != [] {
      StepInv(s, actions[0]);
      WithoutDebtNoneIsMissed(Step(s, actions[0]), actions[1..], last);
    }
  }

  /** In particular in every run in which each sleep ended by a wake of its own. */
  lemma FlagIsAnsweredWithoutDebt(actions: seq<Action>, last: State)
    requires RunsTo(START, actions, last) && !last.debt
    ensures AlwaysAttentive(START, actions)
  {
    WithoutDebtNoneIsMissed(START, actions, last);
    FlagIsAnsweredIff(actions, last);
  }

  // ----- when a waiting caller is answered -----

  /** No new wake and no interrupt. */
  predicate NoNews(actions: seq<Action>) {
    forall i | 0 <= i < |actions| :: !IsWake(actions[i]) && !actions[i].Interrupt?
  }

  /** The filler will not look again by itself, and nobody owes it a wake-up. */
  predicate IsStuck(s: State) {
    s.flag && !Attentive(s) && s.owed == 0
  }

  lemma StaysStuck(s: State, a: Action)
    requires Inv(s) && IsStuck(s) && Enabled(s, a) && !IsWake(a) && !a.Interrupt?
    ensures IsStuck(Step(s, a))
  {
  }

  lemma {:induction false} StuckForGood(s: State, actions: seq<Action>, last: State)
    requires Inv(s) && IsStuck(s) && RunsTo(s, actions, last) && NoNews(actions)
    ensures last.flag
    decreases |actions|
  {
    if actions != [] {
      hide Inv, Step, Enabled, IsStuck;
      assert !IsWake(actions[0]) && !actions[0].Interrupt?;
      StaysStuck(s, actions[0]);
      StepInv(s, actions[0]);
      assert forall i | 0 <= i < |actions| - 1 :: actions[1..][i] == actions[i + 1];
      StuckForGood(Step(s, actions[0]), actions[1..], last);
    } else {
      assert IsStuck(s);
    }
  }

  /** How far the filler is from its next look. */
  ghost function ToLook(s: State): nat {
    match s.filler
    case Filling => 0
    case Sleeping => 1
    case Drowsy => 2
    case Done => 3
  }

  /** The filler's next step, or the wake-up that is owed to it while it sleeps. */
  ghost function NextStep(s: State): Action {
    match s.filler
    case Filling => FillerCheck(true)
    case Done => FillerWait
    case Drowsy => FillerSleep
    case Sleeping => OtherPay
  }

  lemma StepNearer(s: State)
    requires Inv(s) && s.flag && (Attentive(s) || s.owed > 0)
    ensures Enabled(s, NextStep(s))
    ensures var s' := Step(s, NextStep(s));
      !s'.flag || (s'.flag && (Attentive(s') || s'.owed > 0) && ToLook(s') < ToLook(s))
  {
  }

  lemma {:induction false} AnswerFrom(s: State) returns (actions: seq<Action>, last: State)
    requires Inv(s) && s.flag && (Attentive(s) || s.owed > 0)
    ensures RunsTo(s, actions, last) && NoNews(actions) && !last.flag
    decreases ToLook(s)
  {
    var a := NextStep(s);
    StepNearer(s);
    StepInv(s, a);
    var s' := Step(s, a);
    if !s'.flag {
      actions, last := [a], s';
      assert [a][1..] == [] && RunsTo(s', [], s');
    } else {
      var rest;
      rest, last := AnswerFrom(s');
      actions := [a] + rest;
      assert actions[1..] == rest;
    }
  }

  ghost predicate AnswersIn(s: State, actions: seq<Action>, last: State) {
    RunsTo(s, actions, last) && NoNews(actions) && !last.flag
  }

  /** From every state of every run in which a caller waits on its flag: the flag can be answered
      without a new wake, if and only if the filler has a token or a look ahead of it or a
      wake-up is still owed. */
  lemma AnswerableIff(before: seq<Action>, s: State)
    requires RunsTo(START, before, s) && s.flag
    ensures (exists actions, last :: AnswersIn(s, actions, last)) <==> Attentive(s) || s.owed > 0
  {
    RunInv(START, before, s);
    hide RunsTo, Inv, Attentive;
    if Attentive(s) || s.owed > 0 {
      var actions, last := AnswerFrom(s);
      assert AnswersIn(s, actions, last);
    } else {
      forall actions, last ensures !AnswersIn(s, actions, last) {
        if RunsTo(s, actions, last) && NoNews(actions) {
          StuckForGood(s, actions, last);
        }
      }
    }
  }

  // ----- a late wake-up leaves a debt, and the debt loses a wake -----

  /** Two quick wakes: the second one's wake-up comes after the filler used both tokens and
      fell asleep. The filler ends its next pass with the counter at -1. */
  const LATE: seq<Action> := [
    FillerCheck(true), CallerWake(false), CallerPay, CallerWake(false),
    FillerWait, FillerCheck(true), FillerWait, FillerCheck(true), FillerWait, FillerSleep,
    CallerPay, FillerCheck(true)]

  /** A caller then wakes and waits, and the filler falls asleep. */
  const LOST: seq<Action> := [CallerWake(true), CallerPay, CallerFlag, FillerWait, FillerSleep]

  const OWING: Caller := Paying(true, false)

  const LATE_STATES: seq<State> := [
    START, State(0, Done, 0, Idle, false, false), State(1, Done, 0, Paying(false, false), false, false),
    State(1, Done, 0, Idle, false, false), State(2, Done, 0, OWING, false, false),
    State(1, Filling, 0, OWING, false, false), State(1, Done, 0, OWING, false, false),
    State(0, Filling, 0, OWING, false, false), State(0, Done, 0, OWING, false, false),
    State(-1, Drowsy, 0, OWING, false, false), State(-1, Sleeping, 0, OWING, false, false),
    State(-1, Filling, 0, Idle, false, true), IN_DEBT]

  const IN_DEBT: State := State(-1, Done, 0, Idle, false, true)

  const LOST_STATES: seq<State> := [
    State(0, Done, 0, Paying(true, true), false, true), State(0, Done, 0, Flagging, false, true),
    State(0, Done, 0, Waiting, true, true), State(-1, Drowsy, 0, Waiting, true, true), DEADLOCK]

  const DEADLOCK: State := State(-1, Sleeping, 0, Waiting, true, true)

  ghost predicate Leads(s: State, a: Action, s': State) {
    Enabled(s, a) && Step(s, a) == s'
  }

  lemma {:induction false} TraceIsRun(states: seq<State>, actions: seq<Action>)
    requires |states| == |actions| + 1
    requires forall n | 0 <= n < |actions| :: Leads(states[n], actions[n], states[n + 1])
    ensures RunsTo(states[0], actions, states[|actions|])
    decreases |actions|
  {
    if actions != [] {
      assert Leads(states[0], actions[0], states[1]);
      forall n | 0 <= n < |actions| - 1 ensures Leads(states[1..][n], actions[1..][n], states[1..][n + 1]) {
        assert Leads(states[n + 1], actions[n + 1], states[n + 2]);
      }
      TraceIsRun(states[1..], actions[1..]);
    }
  }

  lemma LateSteps(n: nat)
    requires n < |LATE|
    ensures Leads(LATE_STATES[n], LATE[n], LATE_STATES[n + 1])
  {
  }

  lemma LostSteps(n: nat)
    requires n < |LOST|
    ensures Leads(if n == 0 then IN_DEBT else LOST_STATES[n - 1], LOST[n], LOST_STATES[n])
  {
  }

  /** A late wake-up leaves the counter at -1 with nobody asleep. The next caller's wake meets
      the filler about to wait there, and the caller waits for ever: the flag is set, the filler
      sleeps, nobody owes a wake-up, and no step of either is possible. */
  lemma DebtLosesAWake()
    ensures RunsTo(START, LATE, IN_DEBT) && RunsTo(START, LATE + LOST, DEADLOCK)
    ensures Misses(IN_DEBT, LOST[0])
    ensures DEADLOCK.flag && !Attentive(DEADLOCK)
    ensures forall a | Enabled(DEADLOCK, a) :: a.OtherWake? || a.Interrupt?
  {
    hide RunsTo, Leads;
    forall n | 0 <= n < |LATE| ensures Leads(LATE_STATES[n], LATE[n], LATE_STATES[n + 1]) {
      LateSteps(n);
    }
    TraceIsRun(LATE_STATES, LATE);
    var states, actions := LATE_STATES + LOST_STATES, LATE + LOST;
    forall n | 0 <= n < |actions| ensures Leads(states[n], actions[n], states[n + 1]) {
      if n < |LATE| {
        LateSteps(n);
      } else {
        LostSteps(n - |LATE|);
      }
    }
    TraceIsRun(states, actions);
  }
}
