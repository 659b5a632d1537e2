/** The enclave's lock does not get stuck: from every state of every run all open calls can
    return, and whether a destroyer then gets the lock. */
module EnclaveProgress {
  import opened Basics
  import opened EnclaveLock

  // ----- how much a thread has left to do -----

  function Weight(f: Frame): nat {
    match f
    case Ecall(p) => if p == Checking then 3 else if p == Working then 2 else 1
    case Fill(p) => if p == Checking then 3 else if p == Working then 2 else 1
    case Enclave(_) => 1
    case Ocall(relocked) => if relocked then 1 else 2
  }

  function StackWork(stack: seq<Frame>): nat {
    if stack == [] then 0 else StackWork(stack[..|stack| - 1]) + Weight(stack[|stack| - 1])
  }

  function Work(threads: seq<Thread>): nat {
    if threads == [] then 0 else Work(threads[..|threads| - 1]) + StackWork(threads[|threads| - 1].stack)
  }

  /** The step that brings thread t closer to the end of its calls. */
  function WayOut(th: Thread, t: nat): Action
    requires th.stack != []
  {
    match Top(th.stack).value
    case Ecall(p) => if p == Checking then Check(t) else if p == Working then GiveUp(t) else Leave(t)
    case Fill(p) => if p == Checking then Check(t) else if p == Working then GiveUp(t) else Leave(t)
    case Enclave(_) => ReturnFromEnclave(t)
    case Ocall(relocked) => if relocked then CheckAgain(t) else Relock(t, true)
  }

  lemma WorkOfPop(stack: seq<Frame>)
    requires stack != []
    ensures StackWork(stack) == StackWork(Pop(stack)) + Weight(Top(stack).value)
  {
  }

  lemma WorkOfReplace(stack: seq<Frame>, f: Frame)
    requires stack != []
    ensures StackWork(Replace(stack, f)) == StackWork(Pop(stack)) + Weight(f)
  {
    assert Replace(stack, f)[..|stack| - 1] == Pop(stack);
  }

  lemma {:induction false} WorkUpdate(threads: seq<Thread>, t: nat, th: Thread)
    requires t < |threads|
    ensures Work(threads[t := th]) == Work(threads) - StackWork(threads[t].stack) + StackWork(th.stack)
    decreases |threads|
  {
    hide StackWork;
    var n := |threads| - 1;
    if t < n {
      WorkUpdate(threads[..n], t, th);
      assert threads[t := th][..n] == threads[..n][t := th];
    } else {
      assert threads[t := th][..n] == threads[..n];
    }
  }

  ghost predicate LeavesLess(m: Move, th: Thread) {
    m.enabled && StackWork(m.stack) < StackWork(th.stack)
  }

  lemma CallIsLess(s: System, th: Thread, t: nat)
    requires th.stack != [] && (Top(th.stack).value.Ecall? || Top(th.stack).value.Fill?)
    ensures LeavesLess(MoveOf(s, WayOut(th, t), th), th)
  {
    hide StackWork, Replace, Pop;
    WorkOfPop(th.stack);
    if Top(th.stack).value.Ecall? {
      WorkOfReplace(th.stack, Ecall(Working));
      WorkOfReplace(th.stack, Ecall(Leaving(false)));
    } else {
      WorkOfReplace(th.stack, Fill(Working));
      WorkOfReplace(th.stack, Fill(Leaving(false)));
    }
  }

  lemma VisitIsLess(th: Thread)
    requires Nested(th.stack) && th.stack != [] && Top(th.stack).value.Enclave?
    ensures LeavesLess(ReturnMove(th), th)
  {
    PopNested(th.stack);
    var below, lost := Pop(th.stack), Top(th.stack).value.lockLost;
    assert below != [] && (Top(below) == Some(Ecall(Working)) || Top(below) == Some(Fill(Working)));
    hide StackWork, Replace, Nested, Pop, Top;
    WorkOfPop(th.stack);
    WorkOfPop(below);
    WorkOfReplace(below, Ecall(Leaving(lost)));
    WorkOfReplace(below, Fill(Leaving(lost)));
  }

  lemma CallOutIsLess(s: System, th: Thread, t: nat)
    requires Nested(th.stack) && th.stack != [] && Top(th.stack).value.Ocall?
    ensures LeavesLess(MoveOf(s, WayOut(th, t), th), th)
  {
    PopNested(th.stack);
    hide StackWork, Replace, Nested, Pop;
    WorkOfPop(th.stack);
    WorkOfPop(Pop(th.stack));
    WorkOfReplace(th.stack, Ocall(true));
    WorkOfReplace(Pop(th.stack), Enclave(true));
  }

  lemma WayOutIsOfThread(th: Thread, t: nat)
    requires th.stack != []
    ensures !IsWriter(WayOut(th, t)) && WayOut(th, t).t == t
  {
  }

  /** Whatever is on top, a thread with open calls has a way out that leaves it less to do. */
  lemma WayOutIsLess(s: System, th: Thread, t: nat)
    requires Nested(th.stack) && th.stack != []
    ensures LeavesLess(MoveOf(s, WayOut(th, t), th), th)
  {
    hide Nested, LeavesLess;
    match Top(th.stack).value {
      case Ecall(_) => CallIsLess(s, th, t);
      case Fill(_) => CallIsLess(s, th, t);
      case Enclave(_) => VisitIsLess(th);
      case Ocall(_) => CallOutIsLess(s, th, t);
    }
  }

  lemma MoveIsLess(s: System, a: Action, t: nat)
    requires t < |s.threads| && !IsWriter(a) && a.t == t && s.writer.None?
    requires LeavesLess(MoveOf(s, a, s.threads[t]), s.threads[t])
    ensures Enabled(s, a) && Step(s, a).writer.None? && Work(Step(s, a).threads) < Work(s.threads)
  {
    hide MoveOf, StackWork, Work;
    var m := MoveOf(s, a, s.threads[t]);
    WorkUpdate(s.threads, t, Thread(m.stack, s.threads[t].count + m.delta));
  }

  /** While no destroyer has the lock it is open, and the system has less to do then. */
  lemma StepOut(s: System, t: nat)
    requires Formed(s) && s.writer.None? && t < |s.threads| && s.threads[t].stack != []
    ensures var a := WayOut(s.threads[t], t);
      Enabled(s, a) && Formed(Step(s, a)) && Step(s, a).writer.None? && Work(Step(s, a).threads) < Work(s.threads)
  {
    var a := WayOut(s.threads[t], t);
    assert Nested(s.threads[t].stack);
    WayOutIsOfThread(s.threads[t], t);
    hide *;
    WayOutIsLess(s, s.threads[t], t);
    MoveIsLess(s, a, t);
    StepFormed(s, a);
  }

  // ----- everyone leaves -----

  /** Nobody has a call open and no destroyer is at work. */
  ghost predicate IsOver(s: System) {
    s.writer.None? && forall t | 0 <= t < |s.threads| :: s.threads[t].stack == []
  }

  lemma {:induction false} LeaveFrom(s: System) returns (actions: seq<Action>, last: System)
    requires Formed(s) && s.writer.None?
    ensures RunsTo(s, actions, last) && IsOver(last)
    decreases Work(s.threads)
  {
    if t: nat :| t < |s.threads| && s.threads[t].stack != [] {
      StepOut(s, t);
      var a := WayOut(s.threads[t], t);
      var rest;
      rest, last := LeaveFrom(Step(s, a));
      actions := [a] + rest;
      hide Formed, Work, Step, Enabled;
      OneStep(s, a, Step(s, a));
      RunsJoin(s, [a], Step(s, a), rest, last);
    } else {
      actions, last := [], s;
    }
  }

  /** A destroyer that has the lock can finish. */
  lemma WriterFinishes(s: System) returns (actions: seq<Action>, last: System)
    requires Formed(s)
    ensures RunsTo(s, actions, last) && Formed(last) && last.writer.None?
  {
    hide Formed;
    if s.writer.None? {
      actions, last := [], s;
    } else if s.writer.value.hardwareGone {
      StepFormed(s, WriteUnlock);
      actions, last := [WriteUnlock], Step(s, WriteUnlock);
      OneStep(s, WriteUnlock, last);
    } else {
      StepFormed(s, DestroyHardware);
      var mid := Step(s, DestroyHardware);
      StepFormed(mid, WriteUnlock);
      actions, last := [DestroyHardware, WriteUnlock], Step(mid, WriteUnlock);
      TwoSteps(s, DestroyHardware, mid, WriteUnlock, last);
    }
  }

  lemma {:induction false} NoHolders(threads: seq<Thread>)
    requires forall t | 0 <= t < |threads| :: threads[t].stack == []
    ensures Holders(threads) == 0
    decreases |threads|
  {
    if threads != [] {
      NoHolders(threads[..|threads| - 1]);
    }
  }

  /** From every state of every run all open calls, however deep, can return, and a destroyer can
      finish. Another destroyer is then let in if and only if no filler ever unlocked what it did
      not hold. */
  lemma EveryoneCanLeave(n: nat, before: seq<Action>, s: System) returns (actions: seq<Action>, last: System)
    requires RunsTo(Idle(n), before, s)
    ensures RunsTo(s, actions, last) && IsOver(last)
    ensures Enabled(last, WriteLock) <==> AllFaults(Idle(n), before + actions) == 0
  {
    hide RunsTo, Formed, Idle, AllFaults, Holders;
    IdleFormed(n);
    RunFormed(Idle(n), before, s);
    var first, mid := WriterFinishes(s);
    var rest;
    rest, last := LeaveFrom(mid);
    actions := first + rest;
    RunsJoin(s, first, mid, rest, last);
    RunsJoin(Idle(n), before, s, actions, last);
    CounterIsHoldersLessFaults(n, before + actions, last);
    NoHolders(last.threads);
  }

  // ----- destroying -----

  /** Without holders a destroyer goes through to the end. From then on every call in, and every
      pass of the filler, gives the lock back at its check. */
  lemma DestroyGoesThrough(s: System, t: nat, filler: bool)
    requires s.writer.None? && s.readers == 0
    requires t < |s.threads| && Outside(s.threads[t]) && (filler ==> s.threads[t].stack == [])
    ensures var gone := s.(destroyed := true, hardwareGone := true);
      && RunsTo(s, [WriteLock, DestroyHardware, WriteUnlock], gone)
      && RunsTo(gone, [TryEnter(t, true, filler), Check(t)], gone)
  {
    var locked, emptied := s.(writer := Some(Writer(false))), s.(writer := Some(Writer(true)), hardwareGone := true);
    var gone := s.(destroyed := true, hardwareGone := true);
    assert Leads(s, WriteLock, locked) && Leads(locked, DestroyHardware, emptied) && Leads(emptied, WriteUnlock, gone);
    CheckTurnsBack(gone, t, filler);
    hide Leads, RunsTo;
    OneStep(s, WriteLock, locked);
    TwoSteps(locked, DestroyHardware, emptied, WriteUnlock, gone);
    RunsJoin(s, [WriteLock], locked, [DestroyHardware, WriteUnlock], gone);
    assert [WriteLock] + [DestroyHardware, WriteUnlock] == [WriteLock, DestroyHardware, WriteUnlock];
  }

  lemma CheckTurnsBack(gone: System, t: nat, filler: bool)
    requires gone.writer.None? && gone.destroyed
    requires t < |gone.threads| && Outside(gone.threads[t]) && (filler ==> gone.threads[t].stack == [])
    ensures RunsTo(gone, [TryEnter(t, true, filler), Check(t)], gone)
  {
    var th := gone.threads[t];
    var f := if filler then Fill(Checking) else Ecall(Checking);
    var mid := Moved(gone, t, Move(true, th.stack + [f], 1));
    assert Leads(gone, TryEnter(t, true, filler), mid);
    TurnsBack(gone, th, t, f);
    hide Leads, RunsTo, Moved;
    TwoSteps(gone, TryEnter(t, true, filler), mid, Check(t), gone);
  }

  lemma TurnsBack(gone: System, th: Thread, t: nat, f: Frame)
    requires gone.writer.None? && gone.destroyed && t < |gone.threads| && th == gone.threads[t]
    requires f == Fill(Checking) || f == Ecall(Checking)
    ensures Leads(Moved(gone, t, Move(true, th.stack + [f], 1)), Check(t), gone)
  {
    var mid := Moved(gone, t, Move(true, th.stack + [f], 1));
    assert mid.threads[t] == Thread(th.stack + [f], th.count + 1);
    assert Pop(th.stack + [f]) == th.stack && Top(th.stack + [f]) == Some(f);
    assert MoveOf(mid, Check(t), mid.threads[t]) == Move(true, th.stack, -1);
    hide MoveOf;
    assert mid.threads[t := Thread(th.stack, th.count)] == gone.threads;
  }
}
