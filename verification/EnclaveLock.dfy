/** The read/write lock of an enclave over nested calls into it and out of it, while another
    thread, or one of these inside a call out, may destroy the enclave. */
module EnclaveLock {
  import opened Basics

  /** How far a call that took the read lock is. */
  datatype Phase = Checking | Working | Leaving(lockLost: bool)

  datatype Frame =
    | Ecall(phase: Phase)
    | Fill(phase: Phase)        // a pass of the thread filler
    | Enclave(lockLost: bool)   // execution inside, or coming back out without the lock
    | Ocall(relocked: bool)     // application code outside, or back with the lock retaken

  datatype Thread = Thread(stack: seq<Frame>, count: int)

  /** What the destroying thread has done while it has the write lock. */
  datatype Writer = Writer(hardwareGone: bool)

  /** Readers is the lock's own counter; a thread's count is its share of it. */
  datatype System = System(
    threads: seq<Thread>, readers: int, writer: Option<Writer>,
    destroyed: bool, hardwareGone: bool)

  datatype Action =
    | TryEnter(t: nat, locked: bool, filler: bool)
    | Check(t: nat)
    | EnterEnclave(t: nat)
    | GiveUp(t: nat)
    | CallOut(t: nat)
    | Relock(t: nat, locked: bool)
    | CheckAgain(t: nat)
    | ReturnFromEnclave(t: nat)
    | Leave(t: nat)
    | WriteLock | DestroyHardware | WriteUnlock

  function Top(s: seq<Frame>): Option<Frame> {
    if s == [] then None else Some(s[|s| - 1])
  }

  function Pop(s: seq<Frame>): seq<Frame> {
    if s == [] then [] else s[..|s| - 1]
  }

  function Replace(s: seq<Frame>, f: Frame): seq<Frame> {
    Pop(s) + [f]
  }

  /** Outside the enclave and free to call in: idle, or in application code called from inside. */
  predicate Outside(th: Thread) {
    th.stack == [] || Top(th.stack) == Some(Ocall(false))
  }

  // ----- one thread's step: its new stack and the change of its lock count -----

  datatype Move = Move(enabled: bool, stack: seq<Frame>, delta: int)

  const STUCK: Move := Move(false, [], 0)

  function TryEnterMove(th: Thread, locked: bool, filler: bool): Move {
    if !Outside(th) || (filler && th.stack != []) then STUCK
    else if !locked then Move(true, th.stack, 0)
    else Move(true, th.stack + [if filler then Fill(Checking) else Ecall(Checking)], 1)
  }

  function CheckMove(th: Thread, destroyed: bool): Move {
    match Top(th.stack)
    case Some(Ecall(Checking)) =>
      if destroyed then Move(true, Pop(th.stack), -1) else Move(true, Replace(th.stack, Ecall(Working)), 0)
    case Some(Fill(Checking)) =>
      if destroyed then Move(true, Pop(th.stack), -1) else Move(true, Replace(th.stack, Fill(Working)), 0)
    case _ => STUCK
  }

  function EnterEnclaveMove(th: Thread): Move {
    if Top(th.stack) == Some(Ecall(Working)) || Top(th.stack) == Some(Fill(Working))
    then Move(true, th.stack + [Enclave(false)], 0) else STUCK
  }

  /** Done without entering: no free thread, a failed trim, a switchless call, nothing to fill. */
  function GiveUpMove(th: Thread): Move {
    match Top(th.stack)
    case Some(Ecall(Working)) => Move(true, Replace(th.stack, Ecall(Leaving(false))), 0)
    case Some(Fill(Working)) => Move(true, Replace(th.stack, Fill(Leaving(false))), 0)
    case _ => STUCK
  }

  function CallOutMove(th: Thread): Move {
    if Top(th.stack) == Some(Enclave(false)) then Move(true, th.stack + [Ocall(false)], -1) else STUCK
  }

  /** Without the lock the call out fails, and the call that made it returns that failure. */
  function RelockMove(th: Thread, locked: bool): Move {
    if Top(th.stack) != Some(Ocall(false)) then STUCK
    else if locked then Move(true, Replace(th.stack, Ocall(true)), 1)
    else Move(true, Replace(Pop(th.stack), Enclave(true)), 0)
  }

  function CheckAgainMove(th: Thread, destroyed: bool): Move {
    if Top(th.stack) != Some(Ocall(true)) then STUCK
    else if destroyed then Move(true, Replace(Pop(th.stack), Enclave(true)), -1)
    else Move(true, Pop(th.stack), 0)
  }

  /** An ordinary call is over with its one visit; a filler may enter again under the same lock,
      unless the visit lost it. */
  function ReturnMove(th: Thread): Move {
    match Top(th.stack)
    case Some(Enclave(lost)) =>
      var below := Pop(th.stack);
      if Top(below) == Some(Ecall(Working)) then Move(true, Replace(below, Ecall(Leaving(lost))), 0)
      else if lost then Move(true, Replace(below, Fill(Leaving(true))), 0)
      else Move(true, below, 0)
    case _ => STUCK
  }

  /** A call unlocks unless its failure says the lock is gone. The filler unlocks whatever
      happened. */
  function LeaveMove(th: Thread): Move {
    match Top(th.stack)
    case Some(Ecall(Leaving(lost))) => Move(true, Pop(th.stack), if lost then 0 else -1)
    case Some(Fill(Leaving(_))) => Move(true, Pop(th.stack), -1)
    case _ => STUCK
  }

  function MoveOf(s: System, a: Action, th: Thread): Move {
    match a
    case TryEnter(_, locked, filler) => TryEnterMove(th, locked, filler)
    case Check(_) => CheckMove(th, s.destroyed)
    case EnterEnclave(_) => EnterEnclaveMove(th)
    case GiveUp(_) => GiveUpMove(th)
    case CallOut(_) => CallOutMove(th)
    case Relock(_, locked) => RelockMove(th, locked)
    case CheckAgain(_) => CheckAgainMove(th, s.destroyed)
    case ReturnFromEnclave(_) => ReturnMove(th)
    case Leave(_) => LeaveMove(th)
    case WriteLock => STUCK
    case DestroyHardware => STUCK
    case WriteUnlock => STUCK
  }

  predicate IsWriter(a: Action) {
    a.WriteLock? || a.DestroyHardware? || a.WriteUnlock?
  }

  /** A read lock is granted only without a writer; it may also be refused then. */
  predicate Enabled(s: System, a: Action) {
    if a.WriteLock? then s.writer.None? && s.readers == 0
    else if a.DestroyHardware? then s.writer.Some? && !s.writer.value.hardwareGone
    else if a.WriteUnlock? then s.writer.Some? && s.writer.value.hardwareGone
    else a.t < |s.threads| && MoveOf(s, a, s.threads[a.t]).enabled
         && (MoveOf(s, a, s.threads[a.t]).delta > 0 ==> s.writer.None?)
  }

  function Moved(s: System, t: nat, m: Move): System
    requires t < |s.threads|
  {
    s.(threads := s.threads[t := Thread(m.stack, s.threads[t].count + m.delta)], readers := s.readers + m.delta)
  }

  function Step(s: System, a: Action): System
    requires Enabled(s, a)
  {
    if a.WriteLock? then s.(writer := Some(Writer(false)))
    else if a.DestroyHardware? then s.(writer := Some(Writer(true)), hardwareGone := true)
    else if a.WriteUnlock? then s.(writer := None, destroyed := true)
    else Moved(s, a.t, MoveOf(s, a, s.threads[a.t]))
  }

  /** The step is the unlock of a filler that lost the lock: it takes another holder's share
      off the counter. */
  predicate IsFaulty(s: System, a: Action) {
    a.Leave? && a.t < |s.threads| && Top(s.threads[a.t].stack) == Some(Fill(Leaving(true)))
  }

  /** A read lock is refused only while a writer has the lock. */
  predicate IsHonest(s: System, a: Action) {
    (a.TryEnter? || a.Relock?) && !a.locked ==> s.writer.Some?
  }

  // ----- the invariant -----

  /** Which frame may stand on which. */
  predicate OnTop(below: Frame, f: Frame) {
    match f
    case Ecall(_) => below == Ocall(false)
    case Fill(_) => false
    case Enclave(_) => below == Ecall(Working) || below == Fill(Working)
    case Ocall(_) => below == Enclave(false)
  }

  ghost predicate Nested(stack: seq<Frame>) {
    && (stack != [] ==> stack[0].Ecall? || stack[0].Fill?)
    && forall i | 0 <= i < |stack| - 1 :: OnTop(stack[i], stack[i + 1])
  }

  /** One while the thread is inside or in the runtime between lock and unlock, else none. */
  function LocksHeld(stack: seq<Frame>): int {
    match Top(stack)
    case None => 0
    case Some(Ecall(p)) => if p == Leaving(true) then 0 else 1
    case Some(Fill(p)) => if p == Leaving(true) then 0 else 1
    case Some(Enclave(lost)) => if lost then 0 else 1
    case Some(Ocall(relocked)) => if relocked then 1 else 0
  }

  /** In the enclave, or past the check and about to enter. */
  predicate Active(stack: seq<Frame>) {
    var top := Top(stack);
    top == Some(Enclave(false)) || top == Some(Ecall(Working)) || top == Some(Fill(Working))
  }

  /** The frames are nested and the count is what they hold. */
  ghost predicate Tied(th: Thread) {
    Nested(th.stack) && th.count == LocksHeld(th.stack)
  }

  ghost predicate ThreadOk(s: System, th: Thread) {
    Tied(th) && (Active(th.stack) ==> !s.destroyed && !s.hardwareGone)
  }

  ghost function Total(threads: seq<Thread>): int {
    if threads == [] then 0 else Total(threads[..|threads| - 1]) + threads[|threads| - 1].count
  }

  ghost predicate Inv(s: System) {
    && (forall i | 0 <= i < |s.threads| :: ThreadOk(s, s.threads[i]))
    && s.readers == Total(s.threads)
    && (s.writer.Some? ==> s.readers == 0)
    && (s.writer.Some? && s.writer.value.hardwareGone ==> s.hardwareGone)
    && (s.hardwareGone && s.writer.None? ==> s.destroyed)
  }

  lemma {:induction false} TotalUpdate(threads: seq<Thread>, t: nat, th: Thread)
    requires t < |threads|
    ensures Total(threads[t := th]) == Total(threads) - threads[t].count + th.count
    decreases |threads|
  {
    var n := |threads| - 1;
    if t < n {
      TotalUpdate(threads[..n], t, th);
      assert threads[t := th][..n] == threads[..n][t := th];
    } else {
      assert threads[t := th][..n] == threads[..n];
    }
  }

  lemma {:induction false} NoneLocked(threads: seq<Thread>, t: nat)
    requires t < |threads| && forall i | 0 <= i < |threads| :: threads[i].count >= 0
    ensures Total(threads) >= threads[t].count
    decreases |threads|
  {
    var n := |threads| - 1;
    if t < n {
      NoneLocked(threads[..n], t);
    } else if n > 0 {
      NoneLocked(threads[..n], 0);
    }
  }

  lemma CountsAreShares(s: System, t: nat)
    requires Inv(s) && t < |s.threads|
    ensures 0 <= s.threads[t].count <= s.readers
  {
    forall i | 0 <= i < |s.threads| ensures s.threads[i].count >= 0 {
      assert ThreadOk(s, s.threads[i]);
    }
    NoneLocked(s.threads, t);
  }

  // ----- every move keeps frames nested and the count tied to the top frame -----

  lemma PopNested(stack: seq<Frame>)
    requires Nested(stack) && stack != []
    ensures Nested(Pop(stack))
    ensures |stack| > 1 ==> Top(Pop(stack)).Some? && OnTop(Top(Pop(stack)).value, Top(stack).value)
    ensures |stack| == 1 ==> Pop(stack) == [] && (Top(stack).value.Ecall? || Top(stack).value.Fill?)
  {
    assert |stack| > 1 ==> OnTop(stack[|stack| - 2], stack[|stack| - 1]);
  }

  lemma PushNested(stack: seq<Frame>, f: Frame)
    requires Nested(stack)
    requires if stack == [] then f.Ecall? || f.Fill? else OnTop(Top(stack).value, f)
    ensures Nested(stack + [f]) && Top(stack + [f]) == Some(f) && Pop(stack + [f]) == stack
  {
    var after := stack + [f];
    forall i | 0 <= i < |after| - 1 ensures OnTop(after[i], after[i + 1]) {
      assert i < |stack| - 1 ==> OnTop(stack[i], stack[i + 1]);
    }
  }

  /** The same kind of frame may take the place of the top one. */
  lemma ReplaceNested(stack: seq<Frame>, f: Frame)
    requires Nested(stack) && stack != []
    requires match Top(stack).value
             case Ecall(_) => f.Ecall?
             case Fill(_) => f.Fill?
             case Enclave(_) => f.Enclave?
             case Ocall(_) => f.Ocall?
    ensures Nested(Replace(stack, f)) && Top(Replace(stack, f)) == Some(f)
  {
    PopNested(stack);
    PushNested(Pop(stack), f);
  }

  lemma TryEnterKeeps(th: Thread, locked: bool, filler: bool)
    requires Tied(th) && TryEnterMove(th, locked, filler).enabled
    ensures Tied(After(th, TryEnterMove(th, locked, filler)))
  {
    hide Nested;
    if locked {
      var f := if filler then Fill(Checking) else Ecall(Checking);
      EntersOutside(th, f);
      PushNested(th.stack, f);
      OutsideHoldsNone(th);
    }
  }

  lemma EntersOutside(th: Thread, f: Frame)
    requires Outside(th) && (f == Ecall(Checking) || (f == Fill(Checking) && th.stack == []))
    ensures th.stack != [] ==> OnTop(Top(th.stack).value, f)
  {
  }

  lemma OutsideHoldsNone(th: Thread)
    requires Outside(th)
    ensures LocksHeld(th.stack) == 0
  {
  }

  lemma CheckKeeps(th: Thread, destroyed: bool)
    requires Tied(th) && CheckMove(th, destroyed).enabled
    ensures Tied(After(th, CheckMove(th, destroyed)))
  {
    hide Nested;
    PopNested(th.stack);
    ReplaceNested(th.stack, if Top(th.stack).value.Ecall? then Ecall(Working) else Fill(Working));
  }

  lemma EnterEnclaveKeeps(th: Thread)
    requires Tied(th) && EnterEnclaveMove(th).enabled
    ensures Tied(After(th, EnterEnclaveMove(th)))
  {
    hide Nested;
    PushNested(th.stack, Enclave(false));
  }

  lemma GiveUpKeeps(th: Thread)
    requires Tied(th) && GiveUpMove(th).enabled
    ensures Tied(After(th, GiveUpMove(th)))
  {
    hide Nested;
    ReplaceNested(th.stack, if Top(th.stack).value.Ecall? then Ecall(Leaving(false)) else Fill(Leaving(false)));
  }

  lemma CallOutKeeps(th: Thread)
    requires Tied(th) && CallOutMove(th).enabled
    ensures Tied(After(th, CallOutMove(th)))
  {
    hide Nested;
    PushNested(th.stack, Ocall(false));
  }

  lemma RelockKeeps(th: Thread, locked: bool)
    requires Tied(th) && RelockMove(th, locked).enabled
    ensures Tied(After(th, RelockMove(th, locked)))
  {
    hide Nested;
    PopNested(th.stack);
    if locked {
      ReplaceNested(th.stack, Ocall(true));
    } else {
      ReplaceNested(Pop(th.stack), Enclave(true));
    }
  }

  lemma CheckAgainKeeps(th: Thread, destroyed: bool)
    requires Tied(th) && CheckAgainMove(th, destroyed).enabled
    ensures Tied(After(th, CheckAgainMove(th, destroyed)))
  {
    hide Nested;
    PopNested(th.stack);
    ReplaceNested(Pop(th.stack), Enclave(true));
  }

  lemma ReturnKeeps(th: Thread)
    requires Tied(th) && ReturnMove(th).enabled
    ensures Tied(After(th, ReturnMove(th)))
  {
    hide Nested;
    PopNested(th.stack);
    var below, lost := Pop(th.stack), Top(th.stack).value.lockLost;
    ReplaceNested(below, if Top(below) == Some(Ecall(Working)) then Ecall(Leaving(lost)) else Fill(Leaving(true)));
  }

  lemma LeaveKeeps(th: Thread)
    requires Tied(th) && LeaveMove(th).enabled && Top(th.stack) != Some(Fill(Leaving(true)))
    ensures Tied(After(th, LeaveMove(th)))
  {
    hide Nested;
    PopNested(th.stack);
  }

  function After(th: Thread, m: Move): Thread {
    Thread(m.stack, th.count + m.delta)
  }

  /** A move, the faulty unlock aside, keeps the count what the frames hold. */
  lemma MoveKeeps(s: System, a: Action, th: Thread)
    requires Tied(th) && MoveOf(s, a, th).enabled && !(a.Leave? && Top(th.stack) == Some(Fill(Leaving(true))))
    ensures Tied(After(th, MoveOf(s, a, th)))
  {
    hide Tied, TryEnterMove, CheckMove, EnterEnclaveMove, GiveUpMove;
    hide CallOutMove, RelockMove, CheckAgainMove, ReturnMove, LeaveMove;
    match a
    case TryEnter(_, locked, filler) => TryEnterKeeps(th, locked, filler);
    case Check(_) => CheckKeeps(th, s.destroyed);
    case EnterEnclave(_) => EnterEnclaveKeeps(th);
    case GiveUp(_) => GiveUpKeeps(th);
    case CallOut(_) => CallOutKeeps(th);
    case Relock(_, locked) => RelockKeeps(th, locked);
    case CheckAgain(_) => CheckAgainKeeps(th, s.destroyed);
    case ReturnFromEnclave(_) => ReturnKeeps(th);
    case Leave(_) => LeaveKeeps(th);
    case WriteLock =>
    case DestroyHardware =>
    case WriteUnlock =>
  }

  /** The step is a check of the mark that finds the enclave not destroyed. */
  predicate Passes(s: System, a: Action) {
    (a.Check? || a.CheckAgain?) && !s.destroyed
  }

  /** A thread becomes active by passing a check, and only so. */
  lemma MoveActivates(s: System, a: Action, th: Thread)
    requires Nested(th.stack) && MoveOf(s, a, th).enabled
    ensures Active(MoveOf(s, a, th).stack) ==> Active(th.stack) || Passes(s, a)
    ensures Passes(s, a) ==> Active(MoveOf(s, a, th).stack)
    ensures Passes(s, a) ==> LocksHeld(th.stack) == 1
  {
    if th.stack != [] {
      PopNested(th.stack);
      if Pop(th.stack) != [] {
        PopNested(Pop(th.stack));
      }
    }
  }

  lemma MovedInv(s: System, t: nat, m: Move)
    requires Inv(s) && t < |s.threads| && ThreadOk(s, After(s.threads[t], m)) && (m.delta != 0 ==> s.writer.None?)
    ensures Inv(Moved(s, t, m))
  {
    hide Nested, LocksHeld, Active, Total;
    TotalUpdate(s.threads, t, After(s.threads[t], m));
    var s' := Moved(s, t, m);
    forall i | 0 <= i < |s'.threads| ensures ThreadOk(s', s'.threads[i]) {
      assert i != t ==> ThreadOk(s, s.threads[i]);
    }
  }

  /** Whoever holds the lock keeps writers out. */
  lemma HolderExcludesWriter(s: System, t: nat)
    requires Inv(s) && t < |s.threads| && s.threads[t].count > 0
    ensures s.writer.None? && (s.hardwareGone ==> s.destroyed)
  {
    CountsAreShares(s, t);
  }

  lemma NoWriterWhileActive(s: System)
    requires Inv(s) && s.readers == 0
    ensures forall i | 0 <= i < |s.threads| :: s.threads[i].count == 0 && !Active(s.threads[i].stack)
  {
    forall i | 0 <= i < |s.threads| ensures s.threads[i].count == 0 && !Active(s.threads[i].stack) {
      CountsAreShares(s, i);
      assert ThreadOk(s, s.threads[i]);
    }
  }

  lemma UnlocksHeldLock(s: System, a: Action, th: Thread)
    requires MoveOf(s, a, th).enabled && MoveOf(s, a, th).delta < 0
    ensures LocksHeld(th.stack) == if a.Leave? && Top(th.stack) == Some(Fill(Leaving(true))) then 0 else 1
  {
    hide Nested;
  }

  /** What a faulty unlock breaks: every other step keeps this. */
  lemma StepInv(s: System, a: Action)
    requires Inv(s) && Enabled(s, a) && !IsFaulty(s, a)
    ensures Inv(Step(s, a))
  {
    if IsWriter(a) {
      hide Total, Nested;
      NoWriterWhileActive(s);
      var s' := Step(s, a);
      forall i | 0 <= i < |s'.threads| ensures ThreadOk(s', s'.threads[i]) {
        assert ThreadOk(s, s.threads[i]);
      }
    } else {
      hide MoveOf, ThreadOk;
      var th := s.threads[a.t];
      var m := MoveOf(s, a, th);
      assert ThreadOk(s, th);
      if th.count > 0 {
        HolderExcludesWriter(s, a.t);
      }
      if m.delta < 0 {
        UnlocksHeldLock(s, a, th);
      }
      MoveKeeps(s, a, th);
      MoveActivates(s, a, th);
      MovedInv(s, a.t, m);
    }
  }

  // ----- runs -----

  ghost function Idle(n: nat): System {
    System(seq(n, _ => Thread([], 0)), 0, None, false, false)
  }

  ghost predicate RunsTo(s: System, actions: seq<Action>, last: System)
    decreases |actions|
  {
    if actions == [] then s == last
    else Enabled(s, actions[0]) && RunsTo(Step(s, actions[0]), actions[1..], last)
  }

  /** No step of the run is a filler's unlock without the lock. */
  ghost predicate NoneFaulty(s: System, actions: seq<Action>)
    decreases |actions|
  {
    actions == [] ||
    (Enabled(s, actions[0]) && !IsFaulty(s, actions[0]) && NoneFaulty(Step(s, actions[0]), actions[1..]))
  }

  ghost predicate AllHonest(s: System, actions: seq<Action>)
    decreases |actions|
  {
    actions == [] ||
    (Enabled(s, actions[0]) && IsHonest(s, actions[0]) && AllHonest(Step(s, actions[0]), actions[1..]))
  }

  /** The states of all runs without such an unlock. */
  ghost predicate Reachable(s: System) {
    exists n: nat, actions :: RunsTo(Idle(n), actions, s) && NoneFaulty(Idle(n), actions)
  }

  lemma {:induction false} NoneHeldAtFirst(threads: seq<Thread>)
    requires forall i | 0 <= i < |threads| :: threads[i].count == 0
    ensures Total(threads) == 0
    decreases |threads|
  {
    if threads != [] {
      NoneHeldAtFirst(threads[..|threads| - 1]);
    }
  }

  lemma IdleInv(n: nat)
    ensures Inv(Idle(n))
  {
    NoneHeldAtFirst(Idle(n).threads);
  }

  lemma {:induction false} RunInv(s: System, actions: seq<Action>, last: System)
    requires Inv(s) && RunsTo(s, actions, last) && NoneFaulty(s, actions)
    ensures Inv(last)
    decreases |actions|
  {
    hide Inv, Enabled, Step, IsFaulty;
    if actions != [] {
      StepInv(s, actions[0]);
      RunInv(Step(s, actions[0]), actions[1..], last);
    }
  }

  lemma ReachableInv(s: System)
    requires Reachable(s)
    ensures Inv(s)
  {
    hide RunsTo, NoneFaulty, Inv;
    var n: nat, actions :| RunsTo(Idle(n), actions, s) && NoneFaulty(Idle(n), actions);
    IdleInv(n);
    RunInv(Idle(n), actions, s);
  }

  // ----- every run, faulty unlocks included -----

  ghost predicate FlagsOk(s: System) {
    && (s.writer.Some? && s.writer.value.hardwareGone ==> s.hardwareGone)
    && (s.hardwareGone && s.writer.None? ==> s.destroyed)
  }

  /** What no step breaks. */
  ghost predicate Formed(s: System) {
    FlagsOk(s) && forall i | 0 <= i < |s.threads| :: Nested(s.threads[i].stack)
  }

  /** By how much the thread's count is below what its open calls hold. */
  ghost function Short(th: Thread): int {
    LocksHeld(th.stack) - th.count
  }

  ghost function Holders(threads: seq<Thread>): nat {
    if threads == [] then 0
    else Holders(threads[..|threads| - 1]) + if LocksHeld(threads[|threads| - 1].stack) == 1 then 1 else 0
  }

  lemma {:induction false} HoldersUpdate(threads: seq<Thread>, t: nat, th: Thread)
    requires t < |threads|
    ensures Holders(threads[t := th]) == Holders(threads) - LocksHeld(threads[t].stack) + LocksHeld(th.stack)
    decreases |threads|
  {
    var n := |threads| - 1;
    if t < n {
      HoldersUpdate(threads[..n], t, th);
      assert threads[t := th][..n] == threads[..n][t := th];
    } else {
      assert threads[t := th][..n] == threads[..n];
    }
  }

  lemma {:induction false} HoldersHold(threads: seq<Thread>)
    ensures Holders(threads) == 0 <==> forall i | 0 <= i < |threads| :: LocksHeld(threads[i].stack) == 0
    decreases |threads|
  {
    hide LocksHeld;
    if threads != [] {
      var n := |threads| - 1;
      HoldersHold(threads[..n]);
      OneOrNone(threads[n].stack);
      if Holders(threads) == 0 {
        forall i | 0 <= i < |threads| ensures LocksHeld(threads[i].stack) == 0 {
          assert i < n ==> threads[..n][i] == threads[i];
        }
      }
    }
  }

  lemma OneOrNone(stack: seq<Frame>)
    ensures LocksHeld(stack) == 0 || LocksHeld(stack) == 1
  {
  }

  lemma FillerIsAlone(stack: seq<Frame>)
    requires Nested(stack) && Top(stack).Some? && Top(stack).value.Fill?
    ensures Pop(stack) == []
  {
    var n := |stack|;
    assert n > 1 ==> OnTop(stack[n - 2], stack[n - 1]);
  }

  lemma NestedNothing()
    ensures Nested([])
  {
  }

  /** A move looks at the stack only. */
  lemma SameMove(s: System, a: Action, th: Thread, other: Thread)
    requires th.stack == other.stack
    ensures MoveOf(s, a, th) == MoveOf(s, a, other)
  {
  }

  lemma AnyMove(s: System, a: Action, th: Thread)
    requires Nested(th.stack) && MoveOf(s, a, th).enabled
    ensures var m := MoveOf(s, a, th);
      && Nested(m.stack)
      && LocksHeld(m.stack) == LocksHeld(th.stack) + m.delta
           + if a.Leave? && Top(th.stack) == Some(Fill(Leaving(true))) then 1 else 0
  {
    hide MoveOf;
    if a.Leave? && Top(th.stack) == Some(Fill(Leaving(true))) {
      FaultyLeave(s, a, th);
      NestedNothing();
    } else {
      var held := Thread(th.stack, LocksHeld(th.stack));
      SameMove(s, a, th, held);
      MoveKeeps(s, a, held);
    }
  }

  lemma FaultyLeave(s: System, a: Action, th: Thread)
    requires Nested(th.stack) && a.Leave? && Top(th.stack) == Some(Fill(Leaving(true)))
    ensures MoveOf(s, a, th) == Move(true, [], -1)
  {
    FillerIsAlone(th.stack);
  }

  lemma MovedFormed(s: System, t: nat, m: Move, fault: int)
    requires Formed(s) && t < |s.threads| && Nested(m.stack)
    requires LocksHeld(m.stack) == LocksHeld(s.threads[t].stack) + m.delta + fault
    ensures Formed(Moved(s, t, m)) && |Moved(s, t, m).threads| == |s.threads|
    ensures forall i | 0 <= i < |s.threads| ::
              Short(Moved(s, t, m).threads[i]) == Short(s.threads[i]) + if i == t then fault else 0
    ensures Holders(Moved(s, t, m).threads) - Moved(s, t, m).readers == Holders(s.threads) - s.readers + fault
  {
    hide Nested, LocksHeld, Holders;
    HoldersUpdate(s.threads, t, After(s.threads[t], m));
  }

  /** Every step keeps the frames nested and the flags in order. It leaves each thread as far
      below what it holds as it was, and the lock's counter as far below the number of holders,
      except that a faulty unlock puts both one further down. */
  lemma StepFormed(s: System, a: Action)
    requires Formed(s) && Enabled(s, a)
    ensures Formed(Step(s, a)) && |Step(s, a).threads| == |s.threads|
    ensures forall t | 0 <= t < |s.threads| ::
              Short(Step(s, a).threads[t]) == Short(s.threads[t]) + if IsFaulty(s, a) && a.t == t then 1 else 0
    ensures Holders(Step(s, a).threads) - Step(s, a).readers
         == Holders(s.threads) - s.readers + if IsFaulty(s, a) then 1 else 0
  {
    hide MoveOf, Nested, LocksHeld, Holders, Moved;
    if !IsWriter(a) {
      var th := s.threads[a.t];
      AnyMove(s, a, th);
      MovedFormed(s, a.t, MoveOf(s, a, th), if IsFaulty(s, a) then 1 else 0);
    }
  }

  /** The faulty unlocks of thread t in a run. */
  ghost function Faults(s: System, actions: seq<Action>, t: nat): nat
    decreases |actions|
  {
    if actions == [] || !Enabled(s, actions[0]) then 0
    else Faults(Step(s, actions[0]), actions[1..], t) + if IsFaulty(s, actions[0]) && actions[0].t == t then 1 else 0
  }

  /** The faulty unlocks of all threads in a run. */
  ghost function AllFaults(s: System, actions: seq<Action>): nat
    decreases |actions|
  {
    if actions == [] || !Enabled(s, actions[0]) then 0
    else AllFaults(Step(s, actions[0]), actions[1..]) + if IsFaulty(s, actions[0]) then 1 else 0
  }

  lemma {:induction false} RunFormed(s: System, actions: seq<Action>, last: System)
    requires Formed(s) && RunsTo(s, actions, last)
    ensures Formed(last) && |last.threads| == |s.threads|
    ensures forall t | 0 <= t < |s.threads| ::
              Short(last.threads[t]) == Short(s.threads[t]) + Faults(s, actions, t)
    ensures Holders(last.threads) - last.readers == Holders(s.threads) - s.readers + AllFaults(s, actions)
    decreases |actions|
  {
    hide Formed, Enabled, Step, IsFaulty, Short, Holders;
    if actions != [] {
      StepFormed(s, actions[0]);
      RunFormed(Step(s, actions[0]), actions[1..], last);
    }
  }

  lemma IdleFormed(n: nat)
    ensures Formed(Idle(n)) && Holders(Idle(n).threads) == 0
    ensures forall t | 0 <= t < n :: Short(Idle(n).threads[t]) == 0
  {
    NestedNothing();
    hide Nested;
    HoldersHold(Idle(n).threads);
  }

  /** In every run a thread's count is what its open calls hold, less its own faulty unlocks. */
  lemma CountIsHeldLessFaults(n: nat, actions: seq<Action>, last: System, t: nat)
    requires RunsTo(Idle(n), actions, last) && t < n
    ensures |last.threads| == n
    ensures last.threads[t].count == LocksHeld(last.threads[t].stack) - Faults(Idle(n), actions, t)
  {
    hide RunsTo, LocksHeld, Formed, Holders;
    IdleFormed(n);
    RunFormed(Idle(n), actions, last);
    assert Short(last.threads[t]) == Short(Idle(n).threads[t]) + Faults(Idle(n), actions, t);
  }

  /** In every run the lock's counter is the number of threads that hold it, less all faulty
      unlocks. So a destroyer is let in while threads hold the lock exactly when as many faulty
      unlocks happened as there are holders. */
  lemma CounterIsHoldersLessFaults(n: nat, actions: seq<Action>, last: System)
    requires RunsTo(Idle(n), actions, last)
    ensures last.readers == Holders(last.threads) - AllFaults(Idle(n), actions)
    ensures Enabled(last, WriteLock) <==> last.writer.None? && Holders(last.threads) == AllFaults(Idle(n), actions)
    ensures Enabled(last, WriteLock) ==>
              ((exists t :: 0 <= t < |last.threads| && LocksHeld(last.threads[t].stack) == 1)
               <==> AllFaults(Idle(n), actions) > 0)
  {
    hide RunsTo, LocksHeld, Formed, Holders, Short;
    IdleFormed(n);
    RunFormed(Idle(n), actions, last);
    HoldersHold(last.threads);
    forall t | 0 <= t < |last.threads| {
      OneOrNone(last.threads[t].stack);
    }
  }

  /** A call that has returned left its thread's count as it was, whatever it called and whatever
      was destroyed meanwhile: between two states of a run with the same open calls, the count
      differs by the faulty unlocks of the thread itself. */
  lemma CallsLeaveTheCount(n: nat, before: seq<Action>, s: System, actions: seq<Action>, s': System, t: nat)
    requires RunsTo(Idle(n), before, s) && RunsTo(s, actions, s')
    requires t < |s.threads| && t < |s'.threads| && s.threads[t].stack == s'.threads[t].stack
    ensures s'.threads[t].count == s.threads[t].count - Faults(s, actions, t)
  {
    hide RunsTo, LocksHeld, Formed, Holders;
    IdleFormed(n);
    RunFormed(Idle(n), before, s);
    RunFormed(s, actions, s');
    assert Short(s'.threads[t]) == Short(s.threads[t]) + Faults(s, actions, t);
  }

  /** The thread never starts a fill pass. */
  ghost predicate NeverFills(actions: seq<Action>, t: nat) {
    forall a | a in actions && a.TryEnter? && a.t == t :: !a.filler
  }

  ghost predicate IsFilling(th: Thread) {
    th.stack != [] && th.stack[0].Fill?
  }

  lemma MoveFills(s: System, a: Action, th: Thread)
    requires Nested(th.stack) && MoveOf(s, a, th).enabled && !IsFilling(th) && !(a.TryEnter? && a.filler)
    ensures !IsFilling(After(th, MoveOf(s, a, th)))
  {
    if th.stack != [] {
      PopNested(th.stack);
      if Pop(th.stack) != [] {
        PopNested(Pop(th.stack));
      }
    }
  }

  lemma OnlyFillersFault(s: System, a: Action)
    requires Formed(s) && IsFaulty(s, a)
    ensures IsFilling(s.threads[a.t])
  {
    FillerIsAlone(s.threads[a.t].stack);
  }

  lemma CallersDoNotFault(s: System, a: Action, t: nat)
    requires Formed(s) && t < |s.threads| && !IsFilling(s.threads[t])
    ensures !(IsFaulty(s, a) && a.t == t)
  {
    hide Formed, IsFilling;
    if IsFaulty(s, a) {
      OnlyFillersFault(s, a);
    }
  }

  lemma {:induction false} CallerFaultless(s: System, actions: seq<Action>, last: System, t: nat)
    requires Formed(s) && RunsTo(s, actions, last) && t < |s.threads| && !IsFilling(s.threads[t])
    requires NeverFills(actions, t)
    ensures Faults(s, actions, t) == 0
    ensures t < |last.threads| && !IsFilling(last.threads[t])
    decreases |actions|
  {
    hide Formed, MoveOf, IsFilling, IsFaulty;
    if actions != [] {
      var a, rest := actions[0], actions[1..];
      assert forall x | x in rest :: x in actions;
      StepFormed(s, a);
      CallersDoNotFault(s, a, t);
      CallerStays(s, a, t);
      CallerFaultless(Step(s, a), rest, last, t);
    }
  }

  lemma CallerStays(s: System, a: Action, t: nat)
    requires Formed(s) && Enabled(s, a) && t < |s.threads| && !IsFilling(s.threads[t])
    requires a.TryEnter? && a.t == t ==> !a.filler
    ensures t < |Step(s, a).threads| && !IsFilling(Step(s, a).threads[t])
  {
    hide MoveOf, Nested, IsFilling;
    if !IsWriter(a) && a.t == t {
      MoveFills(s, a, s.threads[t]);
    }
  }

  /** So a thread that never fills has exactly the count its open calls hold, in every run: a
      fault is paid for by the filler's own count. */
  lemma CallersAreExact(n: nat, actions: seq<Action>, last: System, t: nat)
    requires RunsTo(Idle(n), actions, last) && t < n && NeverFills(actions, t)
    ensures |last.threads| == n && last.threads[t].count == LocksHeld(last.threads[t].stack)
    ensures Outside(last.threads[t]) ==> last.threads[t].count == 0
  {
    CountIsHeldLessFaults(n, actions, last, t);
    hide RunsTo, Formed, NeverFills;
    IdleFormed(n);
    CallerFaultless(Idle(n), actions, last, t);
  }

  /** In every run, whoever unlocks holds the lock, a filler that lost it aside. */
  lemma UnlocksAreBalanced(n: nat, actions: seq<Action>, s: System, a: Action)
    requires RunsTo(Idle(n), actions, s)
    requires !IsWriter(a) && Enabled(s, a) && MoveOf(s, a, s.threads[a.t]).delta < 0
    ensures LocksHeld(s.threads[a.t].stack) == if IsFaulty(s, a) then 0 else 1
    ensures s.threads[a.t].count == LocksHeld(s.threads[a.t].stack) - Faults(Idle(n), actions, a.t)
    ensures NeverFills(actions, a.t) ==> s.threads[a.t].count == 1
  {
    hide RunsTo, MoveOf, LocksHeld, NeverFills;
    IdleFormed(n);
    RunFormed(Idle(n), actions, s);
    UnlocksHeldLock(s, a, s.threads[a.t]);
    CountIsHeldLessFaults(n, actions, s, a.t);
    if NeverFills(actions, a.t) {
      CallerFaultless(Idle(n), actions, s, a.t);
      CallersDoNotFault(s, a, a.t);
    }
  }

  // ----- the counter counts the holders, exactly without a faulty unlock -----

  /** Every thread's share of the counter is what its open calls hold. */
  ghost predicate Balanced(s: System) {
    forall i | 0 <= i < |s.threads| :: s.threads[i].count == LocksHeld(s.threads[i].stack)
  }

  ghost predicate AlwaysBalanced(s: System, actions: seq<Action>)
    decreases |actions|
  {
    Balanced(s) && (actions != [] && Enabled(s, actions[0]) ==> AlwaysBalanced(Step(s, actions[0]), actions[1..]))
  }

  lemma InvIsBalanced(s: System)
    requires Inv(s)
    ensures Balanced(s)
  {
    forall i | 0 <= i < |s.threads| ensures s.threads[i].count == LocksHeld(s.threads[i].stack) {
      assert ThreadOk(s, s.threads[i]);
    }
  }

  lemma FaultUnbalances(s: System, a: Action)
    requires Inv(s) && Enabled(s, a) && IsFaulty(s, a)
    ensures !Balanced(Step(s, a)) && Step(s, a).threads[a.t].stack == []
  {
    hide Total;
    var th := s.threads[a.t];
    assert ThreadOk(s, th);
    FillerIsAlone(th.stack);
    var s' := Step(s, a);
    assert s'.threads[a.t] == Thread([], -1);
  }

  lemma {:induction false} BalancedIff(s: System, actions: seq<Action>, last: System)
    requires Inv(s) && RunsTo(s, actions, last)
    ensures AlwaysBalanced(s, actions) <==> NoneFaulty(s, actions)
    decreases |actions|
  {
    hide Inv, Enabled, Step, IsFaulty, Balanced;
    InvIsBalanced(s);
    if actions != [] {
      if IsFaulty(s, actions[0]) {
        FaultUnbalances(s, actions[0]);
      } else {
        StepInv(s, actions[0]);
        BalancedIff(Step(s, actions[0]), actions[1..], last);
      }
    }
  }

  /** For every run: each thread's share of the counter is what it holds throughout, if and only
      if no filler unlocks after a call out of its pass lost the lock. */
  lemma BalancedIffNoneFaulty(n: nat, actions: seq<Action>, last: System)
    requires RunsTo(Idle(n), actions, last)
    ensures AlwaysBalanced(Idle(n), actions) <==> NoneFaulty(Idle(n), actions)
  {
    hide RunsTo, Inv;
    IdleInv(n);
    BalancedIff(Idle(n), actions, last);
  }

  // ----- destroying is safe -----

  ghost predicate IsInside(th: Thread) {
    Top(th.stack) == Some(Enclave(false))
  }

  /** While the enclave is being destroyed nobody is inside, and once it is gone or marked
      nobody is inside or can enter. */
  ghost predicate DestroyIsSafe(s: System) {
    forall t | 0 <= t < |s.threads| ::
      IsInside(s.threads[t]) || Enabled(s, EnterEnclave(t)) ==> s.writer.None? && !s.destroyed && !s.hardwareGone
  }

  lemma EnteringIsActive(s: System, t: nat)
    requires t < |s.threads| && (IsInside(s.threads[t]) || Enabled(s, EnterEnclave(t)))
    ensures Active(s.threads[t].stack) && LocksHeld(s.threads[t].stack) == 1
  {
  }

  lemma SafeByInv(s: System)
    requires Inv(s)
    ensures DestroyIsSafe(s)
  {
    hide Inv, Active, LocksHeld, IsInside, Enabled;
    forall t | 0 <= t < |s.threads| && (IsInside(s.threads[t]) || Enabled(s, EnterEnclave(t)))
      ensures s.writer.None? && !s.destroyed && !s.hardwareGone
    {
      EnteringIsActive(s, t);
      InvThread(s, t);
      HolderExcludesWriter(s, t);
    }
  }

  lemma InvThread(s: System, t: nat)
    requires Inv(s) && t < |s.threads|
    ensures ThreadOk(s, s.threads[t])
  {
  }

  // ----- exactly when destroying is safe -----

  /** A destroyer is let in while a thread is inside or past the check, or a thread passes the
      check while a destroyer is at work. */
  ghost predicate Breaches(s: System, a: Action) {
    || (a.WriteLock? && exists t :: 0 <= t < |s.threads| && Active(s.threads[t].stack))
    || (Passes(s, a) && s.writer.Some?)
  }

  ghost predicate AlwaysSafe(s: System, actions: seq<Action>)
    decreases |actions|
  {
    DestroyIsSafe(s) && (actions != [] && Enabled(s, actions[0]) ==> AlwaysSafe(Step(s, actions[0]), actions[1..]))
  }

  ghost predicate NoBreach(s: System, actions: seq<Action>)
    decreases |actions|
  {
    actions == [] ||
    (Enabled(s, actions[0]) && !Breaches(s, actions[0]) && NoBreach(Step(s, actions[0]), actions[1..]))
  }

  /** Safe is: whoever is active meets no destroyer and an enclave that is there. */
  ghost predicate ActiveIsFree(s: System) {
    forall t | 0 <= t < |s.threads| && Active(s.threads[t].stack) ::
      s.writer.None? && !s.destroyed && !s.hardwareGone
  }

  lemma SafeIsActiveFree(s: System)
    ensures DestroyIsSafe(s) <==> ActiveIsFree(s)
  {
    forall t | 0 <= t < |s.threads|
      ensures IsInside(s.threads[t]) || Enabled(s, EnterEnclave(t)) <==> Active(s.threads[t].stack)
    {
    }
  }

  lemma WriterStepSafe(s: System, a: Action)
    requires Formed(s) && ActiveIsFree(s) && IsWriter(a) && Enabled(s, a)
    ensures ActiveIsFree(Step(s, a)) <==> !Breaches(s, a)
  {
    hide Active, Nested;
    var s' := Step(s, a);
    assert s'.threads == s.threads;
  }

  lemma MoveStepSafe(s: System, a: Action)
    requires Formed(s) && ActiveIsFree(s) && !IsWriter(a) && Enabled(s, a)
    ensures ActiveIsFree(Step(s, a)) <==> !Breaches(s, a)
  {
    hide Active, Nested, MoveOf;
    var s', th := Step(s, a), s.threads[a.t];
    MoveActivates(s, a, th);
    assert s'.threads[a.t].stack == MoveOf(s, a, th).stack;
    forall t | 0 <= t < |s.threads| && t != a.t ensures s'.threads[t] == s.threads[t] {
    }
  }

  lemma StepSafe(s: System, a: Action)
    requires Formed(s) && DestroyIsSafe(s) && Enabled(s, a)
    ensures DestroyIsSafe(Step(s, a)) <==> !Breaches(s, a)
  {
    hide Formed, DestroyIsSafe, ActiveIsFree, Enabled, Step, Breaches;
    SafeIsActiveFree(s);
    SafeIsActiveFree(Step(s, a));
    if IsWriter(a) {
      WriterStepSafe(s, a);
    } else {
      MoveStepSafe(s, a);
    }
  }

  lemma {:induction false} SafeIff(s: System, actions: seq<Action>, last: System)
    requires Formed(s) && DestroyIsSafe(s) && RunsTo(s, actions, last)
    ensures AlwaysSafe(s, actions) <==> NoBreach(s, actions)
    decreases |actions|
  {
    hide Formed, DestroyIsSafe, Enabled, Step, Breaches;
    if actions != [] {
      StepFormed(s, actions[0]);
      StepSafe(s, actions[0]);
      if !Breaches(s, actions[0]) {
        SafeIff(Step(s, actions[0]), actions[1..], last);
      }
    }
  }

  /** For every run: destroying is safe in each of its states, if and only if no write lock of
      the run is granted while a thread is inside or past the check, and no check is passed
      while a destroyer has the lock. */
  lemma SafeIffNoBreach(n: nat, actions: seq<Action>, last: System)
    requires RunsTo(Idle(n), actions, last)
    ensures AlwaysSafe(Idle(n), actions) <==> NoBreach(Idle(n), actions)
  {
    IdleInv(n);
    SafeByInv(Idle(n));
    IdleFormed(n);
    hide RunsTo, Formed, DestroyIsSafe;
    SafeIff(Idle(n), actions, last);
  }

  /** Destroying is safe in every run without a faulty unlock, however locks are refused. */
  lemma SafeWithoutFault(s: System)
    requires Reachable(s)
    ensures DestroyIsSafe(s) && (s.writer.Some? ==> forall t | 0 <= t < |s.threads| :: s.threads[t].count == 0)
  {
    hide Reachable, DestroyIsSafe;
    ReachableInv(s);
    SafeByInv(s);
    if s.writer.Some? {
      NoWriterWhileActive(s);
    }
  }

  ghost predicate LostTop(stack: seq<Frame>) {
    var top := Top(stack);
    top == Some(Enclave(true)) || top == Some(Ecall(Leaving(true))) || top == Some(Fill(Leaving(true)))
  }

  /** A lock is lost only to a writer. */
  ghost predicate LostToWriter(s: System) {
    forall i | 0 <= i < |s.threads| && LostTop(s.threads[i].stack) :: s.writer.Some? || s.destroyed
  }

  /** The enclave is gone or its destroyer at work, and nobody is inside or past the check. */
  ghost predicate Doomed(s: System) {
    && (forall i | 0 <= i < |s.threads| :: Nested(s.threads[i].stack) && !Active(s.threads[i].stack))
    && (s.destroyed || (s.writer.Some? && forall i | 0 <= i < |s.threads| :: LocksHeld(s.threads[i].stack) == 0))
  }

  lemma LostOnlyThere(s: System, a: Action, th: Thread)
    requires MoveOf(s, a, th).enabled && IsHonest(s, a) && LostTop(MoveOf(s, a, th).stack)
    requires LostTop(th.stack) ==> s.writer.Some? || s.destroyed
    requires Nested(th.stack)
    ensures s.writer.Some? || s.destroyed
  {
    if th.stack != [] {
      PopNested(th.stack);
      if Pop(th.stack) != [] {
        PopNested(Pop(th.stack));
      }
    }
  }

  lemma HonestStep(s: System, a: Action)
    requires Inv(s) && LostToWriter(s) && Enabled(s, a) && IsHonest(s, a) && !IsFaulty(s, a)
    ensures Inv(Step(s, a)) && LostToWriter(Step(s, a))
  {
    StepInv(s, a);
    hide Inv, MoveOf, Nested;
    if !IsWriter(a) {
      var th := s.threads[a.t];
      InvThread(s, a.t);
      if LostTop(MoveOf(s, a, th).stack) {
        LostOnlyThere(s, a, th);
      }
    }
  }

  lemma FaultDooms(s: System, a: Action)
    requires Inv(s) && LostToWriter(s) && Enabled(s, a) && IsFaulty(s, a)
    ensures Doomed(Step(s, a))
  {
    FaultUnbalances(s, a);
    hide Total, Nested;
    NestedNothing();
    var s' := Step(s, a);
    assert LostTop(s.threads[a.t].stack);
    if !s.destroyed {
      NoWriterWhileActive(s);
    }
    forall i | 0 <= i < |s'.threads|
      ensures Nested(s'.threads[i].stack) && !Active(s'.threads[i].stack)
      ensures !s.destroyed ==> LocksHeld(s'.threads[i].stack) == 0
    {
      InvThread(s, i);
    }
  }

  lemma DoomedMove(s: System, a: Action, th: Thread)
    requires Nested(th.stack) && !Active(th.stack) && MoveOf(s, a, th).enabled
    requires s.destroyed || (s.writer.Some? && LocksHeld(th.stack) == 0)
    requires MoveOf(s, a, th).delta > 0 ==> s.writer.None?
    ensures Nested(MoveOf(s, a, th).stack) && !Active(MoveOf(s, a, th).stack)
    ensures !s.destroyed ==> LocksHeld(MoveOf(s, a, th).stack) == 0
  {
    if a.Leave? && Top(th.stack) == Some(Fill(Leaving(true))) {
      FillerIsAlone(th.stack);
      NestedNothing();
    } else {
      var held := Thread(th.stack, LocksHeld(th.stack));
      SameMove(s, a, th, held);
      MoveKeeps(s, a, held);
    }
  }

  lemma DoomedStep(s: System, a: Action)
    requires Doomed(s) && Enabled(s, a)
    ensures Doomed(Step(s, a))
  {
    hide MoveOf, Nested, Active, LocksHeld;
    if !IsWriter(a) {
      DoomedMove(s, a, s.threads[a.t]);
    }
  }

  lemma {:induction false} HonestRun(s: System, actions: seq<Action>, last: System)
    requires (Inv(s) && LostToWriter(s)) || Doomed(s)
    requires RunsTo(s, actions, last) && AllHonest(s, actions)
    ensures (Inv(last) && LostToWriter(last)) || Doomed(last)
    decreases |actions|
  {
    hide Inv, LostToWriter, Doomed, Enabled, Step, IsFaulty, IsHonest;
    if actions != [] {
      if Doomed(s) {
        DoomedStep(s, actions[0]);
      } else if IsFaulty(s, actions[0]) {
        FaultDooms(s, actions[0]);
      } else {
        HonestStep(s, actions[0]);
      }
      HonestRun(Step(s, actions[0]), actions[1..], last);
    }
  }

  lemma InactiveStaysOut(s: System, t: nat)
    requires t < |s.threads| && !Active(s.threads[t].stack)
    ensures !IsInside(s.threads[t]) && !Enabled(s, EnterEnclave(t))
  {
  }

  lemma SafeByDoom(s: System)
    requires Doomed(s)
    ensures DestroyIsSafe(s)
  {
    hide Active, LocksHeld, IsInside, Enabled, Nested;
    forall t | 0 <= t < |s.threads| ensures !(IsInside(s.threads[t]) || Enabled(s, EnterEnclave(t))) {
      assert !Active(s.threads[t].stack);
      InactiveStaysOut(s, t);
    }
  }

  /** Destroying is safe in every run in which locks are refused to writers only, faulty
      unlocks included: a filler loses the lock only once the enclave is being destroyed. */
  lemma SafeIfHonest(n: nat, actions: seq<Action>, last: System)
    requires RunsTo(Idle(n), actions, last) && AllHonest(Idle(n), actions)
    ensures DestroyIsSafe(last)
  {
    hide RunsTo, AllHonest, Inv, Doomed, DestroyIsSafe;
    IdleInv(n);
    HonestRun(Idle(n), actions, last);
    if Doomed(last) {
      SafeByDoom(last);
    } else {
      SafeByInv(last);
    }
  }

  // ----- two runs of the filler -----

  ghost predicate Leads(s: System, a: Action, s': System) {
    Enabled(s, a) && Step(s, a) == s'
  }

  lemma {:induction false} RunsJoin(a: System, xs: seq<Action>, b: System, ys: seq<Action>, c: System)
    requires RunsTo(a, xs, b) && RunsTo(b, ys, c)
    ensures RunsTo(a, xs + ys, c)
    decreases |xs|
  {
    hide Enabled, Step;
    if xs == [] {
      assert xs + ys == ys;
    } else {
      RunsJoin(Step(a, xs[0]), xs[1..], b, ys, c);
      assert (xs + ys)[0] == xs[0] && (xs + ys)[1..] == xs[1..] + ys;
    }
  }

  /** Runs of one, two and four steps through named states. */
  lemma OneStep(a: System, x: Action, b: System)
    requires Leads(a, x, b)
    ensures RunsTo(a, [x], b)
  {
    hide Enabled, Step;
    assert [x][1..] == [];
    assert RunsTo(b, [], b);
  }

  lemma TwoSteps(a: System, x: Action, b: System, y: Action, c: System)
    requires Leads(a, x, b) && Leads(b, y, c)
    ensures RunsTo(a, [x, y], c)
  {
    hide Leads, RunsTo;
    OneStep(a, x, b);
    OneStep(b, y, c);
    RunsJoin(a, [x], b, [y], c);
    assert [x] + [y] == [x, y];
  }

  lemma FourSteps(a: System, w: Action, b: System, x: Action, c: System, y: Action, d: System, z: Action, e: System)
    requires Leads(a, w, b) && Leads(b, x, c) && Leads(c, y, d) && Leads(d, z, e)
    ensures RunsTo(a, [w, x, y, z], e)
  {
    hide Leads, RunsTo;
    TwoSteps(a, w, b, x, c);
    TwoSteps(c, y, d, z, e);
    RunsJoin(a, [w, x], c, [y, z], e);
    assert [w, x] + [y, z] == [w, x, y, z];
  }

  // ----- calls nest to any depth -----

  /** Thread t with these frames on top of those it has in s. */
  ghost function On(s: System, t: nat, frames: seq<Frame>, delta: int): System
    requires t < |s.threads|
  {
    Moved(s, t, Move(true, s.threads[t].stack + frames, delta))
  }

  lemma OnStep(s: System, t: nat, frames: seq<Frame>, delta: int, a: Action, frames': seq<Frame>, delta': int)
    requires t < |s.threads| && s.writer.None? && !s.destroyed && !IsWriter(a) && a.t == t
    requires MoveOf(s, a, On(s, t, frames, delta).threads[t])
          == Move(true, s.threads[t].stack + frames', delta' - delta)
    ensures Leads(On(s, t, frames, delta), a, On(s, t, frames', delta'))
  {
    SameDestroyed(s, On(s, t, frames, delta), a, On(s, t, frames, delta).threads[t]);
    hide MoveOf;
  }

  lemma SameDestroyed(s: System, s': System, a: Action, th: Thread)
    requires s.destroyed == s'.destroyed
    ensures MoveOf(s, a, th) == MoveOf(s', a, th)
  {
  }

  lemma PopsTop(stack: seq<Frame>, frames: seq<Frame>, f: Frame)
    ensures Top(stack + (frames + [f])) == Some(f) && Pop(stack + (frames + [f])) == stack + frames
    ensures stack + (frames + [f]) == (stack + frames) + [f]
  {
  }

  const WORKS: seq<Frame> := [Ecall(Working)]
  const INSIDE: seq<Frame> := [Ecall(Working), Enclave(false)]
  const CALLS_OUT: seq<Frame> := [Ecall(Working), Enclave(false), Ocall(false)]

  ghost function GoIn(t: nat): seq<Action> {
    [TryEnter(t, true, false), Check(t)] + [EnterEnclave(t), CallOut(t)]
  }

  ghost function ComeBack(t: nat): seq<Action> {
    [Relock(t, true), CheckAgain(t)] + [ReturnFromEnclave(t), Leave(t)]
  }

  lemma OnNothing(s: System, t: nat)
    requires t < |s.threads|
    ensures On(s, t, [], 0) == s
  {
    assert s.threads[t].stack + [] == s.threads[t].stack;
    assert s.threads[t := s.threads[t]] == s.threads;
  }

  lemma EntersAndChecks(s: System, t: nat)
    requires t < |s.threads| && Outside(s.threads[t]) && s.writer.None? && !s.destroyed
    ensures Leads(s, TryEnter(t, true, false), On(s, t, [Ecall(Checking)], 1))
    ensures Leads(On(s, t, [Ecall(Checking)], 1), Check(t), On(s, t, WORKS, 1))
  {
    hide Leads, On;
    var stack := s.threads[t].stack;
    OnNothing(s, t);
    OnThread(s, t, [], 0);
    OnThread(s, t, [Ecall(Checking)], 1);
    PopsTop(stack, [], Ecall(Checking));
    assert [] + [Ecall(Checking)] == [Ecall(Checking)] && [] + [Ecall(Working)] == WORKS;
    assert stack + [] == stack;
    OnStep(s, t, [], 0, TryEnter(t, true, false), [Ecall(Checking)], 1);
    OnStep(s, t, [Ecall(Checking)], 1, Check(t), WORKS, 1);
  }

  lemma OnThread(s: System, t: nat, frames: seq<Frame>, delta: int)
    requires t < |s.threads|
    ensures |On(s, t, frames, delta).threads| == |s.threads|
    ensures On(s, t, frames, delta).threads[t] == Thread(s.threads[t].stack + frames, s.threads[t].count + delta)
  {
  }

  lemma GoesInAndOut(s: System, t: nat)
    requires t < |s.threads| && s.writer.None? && !s.destroyed
    ensures Leads(On(s, t, WORKS, 1), EnterEnclave(t), On(s, t, INSIDE, 1))
    ensures Leads(On(s, t, INSIDE, 1), CallOut(t), On(s, t, CALLS_OUT, 0))
  {
    hide Leads, On;
    var stack := s.threads[t].stack;
    OnThread(s, t, WORKS, 1);
    OnThread(s, t, INSIDE, 1);
    PopsTop(stack, [], Ecall(Working));
    PopsTop(stack, WORKS, Enclave(false));
    PopsTop(stack, INSIDE, Ocall(false));
    assert [] + [Ecall(Working)] == WORKS && WORKS + [Enclave(false)] == INSIDE && INSIDE + [Ocall(false)] == CALLS_OUT;
    OnStep(s, t, WORKS, 1, EnterEnclave(t), INSIDE, 1);
    OnStep(s, t, INSIDE, 1, CallOut(t), CALLS_OUT, 0);
  }

  lemma LocksAgain(s: System, t: nat)
    requires t < |s.threads| && s.writer.None? && !s.destroyed
    ensures Leads(On(s, t, CALLS_OUT, 0), Relock(t, true), On(s, t, INSIDE + [Ocall(true)], 1))
    ensures Leads(On(s, t, INSIDE + [Ocall(true)], 1), CheckAgain(t), On(s, t, INSIDE, 1))
  {
    hide Leads, On;
    var stack := s.threads[t].stack;
    OnThread(s, t, CALLS_OUT, 0);
    OnThread(s, t, INSIDE + [Ocall(true)], 1);
    PopsTop(stack, INSIDE, Ocall(false));
    PopsTop(stack, INSIDE, Ocall(true));
    assert INSIDE + [Ocall(false)] == CALLS_OUT;
    OnStep(s, t, CALLS_OUT, 0, Relock(t, true), INSIDE + [Ocall(true)], 1);
    OnStep(s, t, INSIDE + [Ocall(true)], 1, CheckAgain(t), INSIDE, 1);
  }

  lemma ReturnsAndLeaves(s: System, t: nat)
    requires t < |s.threads| && s.writer.None? && !s.destroyed
    ensures Leads(On(s, t, INSIDE, 1), ReturnFromEnclave(t), On(s, t, [Ecall(Leaving(false))], 1))
    ensures Leads(On(s, t, [Ecall(Leaving(false))], 1), Leave(t), s)
  {
    hide Leads, On;
    var stack := s.threads[t].stack;
    OnNothing(s, t);
    OnThread(s, t, INSIDE, 1);
    OnThread(s, t, [Ecall(Leaving(false))], 1);
    PopsTop(stack, WORKS, Enclave(false));
    PopsTop(stack, [], Ecall(Working));
    PopsTop(stack, [], Ecall(Leaving(false)));
    assert [] + [Ecall(Working)] == WORKS && WORKS + [Enclave(false)] == INSIDE;
    assert [] + [Ecall(Leaving(false))] == [Ecall(Leaving(false))];
    assert stack + [] == stack;
    OnStep(s, t, INSIDE, 1, ReturnFromEnclave(t), [Ecall(Leaving(false))], 1);
    OnStep(s, t, [Ecall(Leaving(false))], 1, Leave(t), [], 0);
  }

  lemma RunIn(s: System, t: nat)
    requires t < |s.threads| && Outside(s.threads[t]) && s.writer.None? && !s.destroyed
    ensures RunsTo(s, [TryEnter(t, true, false), Check(t), EnterEnclave(t)], On(s, t, INSIDE, 1))
    ensures RunsTo(s, GoIn(t), On(s, t, CALLS_OUT, 0))
  {
    hide Leads, RunsTo, On, Outside;
    EntersAndChecks(s, t);
    GoesInAndOut(s, t);
    var first := [TryEnter(t, true, false), Check(t)];
    var checked, inside, out := On(s, t, WORKS, 1), On(s, t, INSIDE, 1), On(s, t, CALLS_OUT, 0);
    TwoSteps(s, TryEnter(t, true, false), On(s, t, [Ecall(Checking)], 1), Check(t), checked);
    TwoSteps(checked, EnterEnclave(t), inside, CallOut(t), out);
    RunsJoin(s, first, checked, [EnterEnclave(t), CallOut(t)], out);
    OneStep(checked, EnterEnclave(t), inside);
    RunsJoin(s, first, checked, [EnterEnclave(t)], inside);
    assert first + [EnterEnclave(t)] == [TryEnter(t, true, false), Check(t), EnterEnclave(t)];
  }

  lemma RunBack(s: System, t: nat)
    requires t < |s.threads| && s.writer.None? && !s.destroyed
    ensures RunsTo(On(s, t, CALLS_OUT, 0), ComeBack(t), s)
  {
    hide Leads, RunsTo, On;
    LocksAgain(s, t);
    ReturnsAndLeaves(s, t);
    var inside, out := On(s, t, INSIDE, 1), On(s, t, CALLS_OUT, 0);
    TwoSteps(out, Relock(t, true), On(s, t, INSIDE + [Ocall(true)], 1), CheckAgain(t), inside);
    TwoSteps(inside, ReturnFromEnclave(t), On(s, t, [Ecall(Leaving(false))], 1), Leave(t), s);
    RunsJoin(out, [Relock(t, true), CheckAgain(t)], inside, [ReturnFromEnclave(t), Leave(t)], s);
  }

  lemma TopsOfCall(s: System, t: nat)
    requires t < |s.threads|
    ensures IsInside(On(s, t, INSIDE, 1).threads[t]) && Outside(On(s, t, CALLS_OUT, 0).threads[t])
  {
    var stack := s.threads[t].stack;
    OnThread(s, t, INSIDE, 1);
    OnThread(s, t, CALLS_OUT, 0);
    PopsTop(stack, WORKS, Enclave(false));
    PopsTop(stack, INSIDE, Ocall(false));
    assert WORKS + [Enclave(false)] == INSIDE && INSIDE + [Ocall(false)] == CALLS_OUT;
  }

  /** From any state without a destroyer, a thread outside goes in, is inside, calls out, and is
      outside again one level deeper; from there it comes all the way back to the same state. */
  lemma CallGoesThrough(s: System, t: nat)
    requires t < |s.threads| && Outside(s.threads[t]) && s.writer.None? && !s.destroyed
    ensures RunsTo(s, [TryEnter(t, true, false), Check(t), EnterEnclave(t)], On(s, t, INSIDE, 1))
    ensures RunsTo(s, GoIn(t), On(s, t, CALLS_OUT, 0)) && RunsTo(On(s, t, CALLS_OUT, 0), ComeBack(t), s)
    ensures IsInside(On(s, t, INSIDE, 1).threads[t]) && Outside(On(s, t, CALLS_OUT, 0).threads[t])
  {
    hide RunsTo, On, Outside, IsInside;
    RunIn(s, t);
    RunBack(s, t);
    TopsOfCall(s, t);
  }

  /** Calls in and out nest to any depth on one thread, and come back: there is a run to a state
      with that many calls open, in which the thread holds no lock, and a run back to the start. */
  lemma {:induction false} CallsNest(s: System, t: nat, depth: nat)
      returns (deep: System, go: seq<Action>, back: seq<Action>)
    requires t < |s.threads| && Outside(s.threads[t]) && s.writer.None? && !s.destroyed
    ensures RunsTo(s, go, deep) && RunsTo(deep, back, s)
    ensures |deep.threads| == |s.threads| && Outside(deep.threads[t]) && deep.writer.None? && !deep.destroyed
    ensures |deep.threads[t].stack| == |s.threads[t].stack| + 3 * depth && deep.threads[t].count == s.threads[t].count
    decreases depth
  {
    if depth == 0 {
      deep, go, back := s, [], [];
    } else {
      CallGoesThrough(s, t);
      OnThread(s, t, CALLS_OUT, 0);
      var next := On(s, t, CALLS_OUT, 0);
      hide RunsTo, Outside;
      var go', back';
      deep, go', back' := CallsNest(next, t, depth - 1);
      go, back := GoIn(t) + go', back' + ComeBack(t);
      RunsJoin(s, GoIn(t), next, go', deep);
      RunsJoin(deep, back', next, ComeBack(t), s);
    }
  }

  /** A filler and a caller, with no enclave destroyed yet. */
  ghost function Two(filler: Thread, caller: Thread, writer: Option<Writer>): System {
    System([filler, caller], filler.count + caller.count, writer, false, false)
  }

  lemma FillerStep(filler: Thread, caller: Thread, writer: Option<Writer>, a: Action, m: Move, next: Thread)
    requires !IsWriter(a) && a.t == 0 && MoveOf(Two(filler, caller, writer), a, filler) == m
    requires m.enabled && (m.delta > 0 ==> writer.None?) && next == Thread(m.stack, filler.count + m.delta)
    ensures Leads(Two(filler, caller, writer), a, Two(next, caller, writer))
  {
    hide MoveOf;
  }

  lemma CallerStep(filler: Thread, caller: Thread, a: Action, m: Move, next: Thread)
    requires !IsWriter(a) && a.t == 1 && MoveOf(Two(filler, caller, None), a, caller) == m
    requires m.enabled && next == Thread(m.stack, caller.count + m.delta)
    ensures Leads(Two(filler, caller, None), a, Two(filler, next, None))
  {
    hide MoveOf;
  }

  const OUT: Thread := Thread([], 0)
  const FILLER_OUT: Thread := Thread([Fill(Working), Enclave(false), Ocall(false)], 0)
  const FILLER_LOST: Thread := Thread([Fill(Leaving(true))], 0)

  /** The filler calls out from inside the enclave. */
  const FILL_ACTIONS: seq<Action> := [TryEnter(0, true, true), Check(0), EnterEnclave(0), CallOut(0)]

  lemma FillerMoves(s: System)
    requires !s.destroyed
    ensures MoveOf(s, TryEnter(0, true, true), OUT) == Move(true, [Fill(Checking)], 1)
    ensures MoveOf(s, Check(0), Thread([Fill(Checking)], 1)) == Move(true, [Fill(Working)], 0)
    ensures MoveOf(s, EnterEnclave(0), Thread([Fill(Working)], 1)) == Move(true, [Fill(Working), Enclave(false)], 0)
    ensures MoveOf(s, CallOut(0), Thread([Fill(Working), Enclave(false)], 1)) == Move(true, FILLER_OUT.stack, -1)
  {
    assert [] + [Fill(Checking)] == [Fill(Checking)];
    assert Replace([Fill(Checking)], Fill(Working)) == [Fill(Working)];
    assert [Fill(Working)] + [Enclave(false)] == [Fill(Working), Enclave(false)];
    assert [Fill(Working), Enclave(false)] + [Ocall(false)] == FILLER_OUT.stack;
  }

  lemma FillerGoesOut()
    ensures RunsTo(Idle(2), FILL_ACTIONS, Two(FILLER_OUT, OUT, None))
  {
    hide MoveOf, Two, RunsTo, Leads, Idle;
    var a, b, c := Thread([Fill(Checking)], 1), Thread([Fill(Working)], 1), Thread([Fill(Working), Enclave(false)], 1);
    NotDestroyed(OUT, OUT, None);
    NotDestroyed(a, OUT, None);
    NotDestroyed(b, OUT, None);
    NotDestroyed(c, OUT, None);
    FillerMoves(Two(OUT, OUT, None));
    FillerMoves(Two(a, OUT, None));
    FillerMoves(Two(b, OUT, None));
    FillerMoves(Two(c, OUT, None));
    FillerStep(OUT, OUT, None, TryEnter(0, true, true), Move(true, [Fill(Checking)], 1), a);
    FillerStep(a, OUT, None, Check(0), Move(true, [Fill(Working)], 0), b);
    FillerStep(b, OUT, None, EnterEnclave(0), Move(true, [Fill(Working), Enclave(false)], 0), c);
    FillerStep(c, OUT, None, CallOut(0), Move(true, FILLER_OUT.stack, -1), FILLER_OUT);
    IdleIsTwo();
    FourSteps(Two(OUT, OUT, None), TryEnter(0, true, true), Two(a, OUT, None), Check(0), Two(b, OUT, None),
      EnterEnclave(0), Two(c, OUT, None), CallOut(0), Two(FILLER_OUT, OUT, None));
  }

  lemma NotDestroyed(filler: Thread, caller: Thread, writer: Option<Writer>)
    ensures !Two(filler, caller, writer).destroyed
  {
  }

  lemma IdleIsTwo()
    ensures Idle(2) == Two(OUT, OUT, None)
  {
    assert Idle(2).threads == [OUT, OUT];
  }

  const LOSE_ACTIONS: seq<Action> := [Relock(0, false), ReturnFromEnclave(0)]

  lemma LosingMoves(s: System)
    ensures MoveOf(s, Relock(0, false), FILLER_OUT) == Move(true, [Fill(Working), Enclave(true)], 0)
    ensures MoveOf(s, ReturnFromEnclave(0), Thread([Fill(Working), Enclave(true)], 0))
         == Move(true, FILLER_LOST.stack, 0)
  {
    assert Pop(FILLER_OUT.stack) == [Fill(Working), Enclave(false)];
    assert Replace([Fill(Working), Enclave(false)], Enclave(true)) == [Fill(Working), Enclave(true)];
    assert Pop([Fill(Working), Enclave(true)]) == [Fill(Working)];
    assert Replace([Fill(Working)], Fill(Leaving(true))) == FILLER_LOST.stack;
  }

  /** A refusal, with or without a writer, brings the filler to its unlock without the lock. */
  lemma FillerLosesTheLock(writer: Option<Writer>)
    ensures RunsTo(Two(FILLER_OUT, OUT, writer), LOSE_ACTIONS, Two(FILLER_LOST, OUT, writer))
  {
    hide MoveOf, Two, RunsTo, Leads;
    var mid := Thread([Fill(Working), Enclave(true)], 0);
    LosingMoves(Two(FILLER_OUT, OUT, writer));
    LosingMoves(Two(mid, OUT, writer));
    FillerStep(FILLER_OUT, OUT, writer, Relock(0, false), Move(true, [Fill(Working), Enclave(true)], 0), mid);
    FillerStep(mid, OUT, writer, ReturnFromEnclave(0), Move(true, FILLER_LOST.stack, 0), FILLER_LOST);
    TwoSteps(Two(FILLER_OUT, OUT, writer), Relock(0, false), Two(mid, OUT, writer),
      ReturnFromEnclave(0), Two(FILLER_LOST, OUT, writer));
  }

  lemma WriterComesIn()
    ensures RunsTo(Two(FILLER_OUT, OUT, None), [WriteLock], Two(FILLER_OUT, OUT, Some(Writer(false))))
  {
    var s, s' := Two(FILLER_OUT, OUT, None), Two(FILLER_OUT, OUT, Some(Writer(false)));
    assert Leads(s, WriteLock, s');
    hide Leads, RunsTo;
    OneStep(s, WriteLock, s');
  }

  /** A destroyer takes the lock while the filler is out: the filler then unlocks what it does
      not hold. */
  lemma FillerCanUnlockTwice()
    ensures RunsTo(Idle(2), FILL_ACTIONS + ([WriteLock] + LOSE_ACTIONS), Two(FILLER_LOST, OUT, Some(Writer(false))))
    ensures var last := Two(FILLER_LOST, OUT, Some(Writer(false)));
      Enabled(last, Leave(0)) && IsFaulty(last, Leave(0)) && Step(last, Leave(0)).readers == -1
  {
    hide RunsTo;
    var locked, last := Two(FILLER_OUT, OUT, Some(Writer(false))), Two(FILLER_LOST, OUT, Some(Writer(false)));
    FillerGoesOut();
    WriterComesIn();
    FillerLosesTheLock(Some(Writer(false)));
    RunsJoin(Two(FILLER_OUT, OUT, None), [WriteLock], locked, LOSE_ACTIONS, last);
    RunsJoin(Idle(2), FILL_ACTIONS, Two(FILLER_OUT, OUT, None), [WriteLock] + LOSE_ACTIONS, last);
  }

  const UNLOCK_ACTIONS: seq<Action> := [Leave(0), TryEnter(1, true, false), Check(1), EnterEnclave(1), WriteLock]

  lemma FaultyMove(s: System)
    ensures MoveOf(s, Leave(0), FILLER_LOST) == Move(true, [], -1)
  {
    assert Top(FILLER_LOST.stack) == Some(Fill(Leaving(true)));
    assert Pop(FILLER_LOST.stack) == [];
  }

  lemma CallerMoves(s: System)
    requires !s.destroyed
    ensures MoveOf(s, TryEnter(1, true, false), OUT) == Move(true, [Ecall(Checking)], 1)
    ensures MoveOf(s, Check(1), Thread([Ecall(Checking)], 1)) == Move(true, [Ecall(Working)], 0)
    ensures MoveOf(s, EnterEnclave(1), Thread([Ecall(Working)], 1)) == Move(true, [Ecall(Working), Enclave(false)], 0)
  {
    assert [] + [Ecall(Checking)] == [Ecall(Checking)];
    assert Replace([Ecall(Checking)], Ecall(Working)) == [Ecall(Working)];
    assert [Ecall(Working)] + [Enclave(false)] == [Ecall(Working), Enclave(false)];
  }

  /** A caller inside while a writer has the lock. */
  const UNSAFE: System :=
    System([Thread([], -1), Thread([Ecall(Working), Enclave(false)], 1)], 0, Some(Writer(false)), false, false)

  lemma WriterSeesNobody()
    ensures Leads(Two(Thread([], -1), Thread([Ecall(Working), Enclave(false)], 1), None), WriteLock, UNSAFE)
  {
  }

  lemma FaultLetsWriterIn()
    ensures RunsTo(Two(FILLER_LOST, OUT, None), UNLOCK_ACTIONS, UNSAFE)
  {
    var f := Thread([], -1);
    var a, b := Thread([Ecall(Checking)], 1), Thread([Ecall(Working)], 1);
    var c := Thread([Ecall(Working), Enclave(false)], 1);
    hide MoveOf, Two, RunsTo, Leads;
    WriterSeesNobody();
    NotDestroyed(f, OUT, None);
    NotDestroyed(f, a, None);
    NotDestroyed(f, b, None);
    FaultyMove(Two(FILLER_LOST, OUT, None));
    CallerMoves(Two(f, OUT, None));
    CallerMoves(Two(f, a, None));
    CallerMoves(Two(f, b, None));
    FillerStep(FILLER_LOST, OUT, None, Leave(0), Move(true, [], -1), f);
    CallerStep(f, OUT, TryEnter(1, true, false), Move(true, [Ecall(Checking)], 1), a);
    CallerStep(f, a, Check(1), Move(true, [Ecall(Working)], 0), b);
    CallerStep(f, b, EnterEnclave(1), Move(true, [Ecall(Working), Enclave(false)], 0), c);
    FourSteps(Two(FILLER_LOST, OUT, None), Leave(0), Two(f, OUT, None), TryEnter(1, true, false), Two(f, a, None),
      Check(1), Two(f, b, None), EnterEnclave(1), Two(f, c, None));
    OneStep(Two(f, c, None), WriteLock, UNSAFE);
    var four := [Leave(0), TryEnter(1, true, false), Check(1), EnterEnclave(1)];
    RunsJoin(Two(FILLER_LOST, OUT, None), four, Two(f, c, None), [WriteLock], UNSAFE);
    assert four + [WriteLock] == UNLOCK_ACTIONS;
  }

  /** If a lock can be refused without a writer, the faulty unlock lets a destroyer in while the
      caller is inside. */
  lemma RefusalWithoutWriterIsUnsafe()
    ensures RunsTo(Idle(2), FILL_ACTIONS + (LOSE_ACTIONS + UNLOCK_ACTIONS), UNSAFE)
    ensures UNSAFE.writer.Some? && IsInside(UNSAFE.threads[1]) && !DestroyIsSafe(UNSAFE)
  {
    hide RunsTo;
    FillerGoesOut();
    FillerLosesTheLock(None);
    FaultLetsWriterIn();
    RunsJoin(Two(FILLER_OUT, OUT, None), LOSE_ACTIONS, Two(FILLER_LOST, OUT, None), UNLOCK_ACTIONS, UNSAFE);
    RunsJoin(Idle(2), FILL_ACTIONS, Two(FILLER_OUT, OUT, None), LOSE_ACTIONS + UNLOCK_ACTIONS, UNSAFE);
    assert IsInside(UNSAFE.threads[1]);
  }
}
