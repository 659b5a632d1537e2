/** Switchless calls get on: a call gives up its scan only over words it saw full, spins as long
    as it was told, and from every state of every run each call can still return. */
module SwitchlessProgress {
  import opened Basics
  import opened SwitchlessCalls

  // ----- runs, one action more -----

  lemma {:induction false} RunSnoc(s: State, actions: seq<Action>)
    requires actions != []
    ensures Run(s, actions) == Step(Run(s, actions[..|actions| - 1]), actions[|actions| - 1])
    decreases |actions|
  {
    hide Step;
    var n := |actions| - 1;
    if n > 0 {
      RunSnoc(Step(s, actions[0]), actions[1..]);
      assert actions[1..][..n - 1] == actions[..n][1..];
    } else {
      assert actions[1..] == [] && actions[..n] == [];
    }
  }

  /** The state after the first k actions. */
  ghost function After(s: State, actions: seq<Action>, k: nat): State
    requires k <= |actions|
  {
    Run(s, actions[..k])
  }

  // ----- the scan -----

  /** At some point of the run the call was at this word and no line of it was free. */
  ghost predicate SawFull(s: State, actions: seq<Action>, c: CallId, word: nat) {
    exists k :: 0 <= k <= |actions| && FullAt(After(s, actions, k), c, word)
  }

  ghost predicate FullAt(s: State, c: CallId, word: nat) {
    At(s, c, Alloc(word)) && NoFreeLineIn(s, word)
  }

  /** At no point of the run the call had a line. */
  ghost predicate NeverHeld(s: State, actions: seq<Action>, c: CallId) {
    forall k | 0 <= k <= |actions| :: HoldsNone(After(s, actions, k), c)
  }

  ghost predicate HoldsNone(s: State, c: CallId) {
    c in s.calls ==> !s.calls[c].pc.Holds()
  }

  /** A call comes to scan a word from the start, or from the word before if that was full, and
      comes to give up without a line from behind the last word. */
  ghost predicate ScansOn(s: State, s': State, c: CallId) {
    && s'.words == s.words
    && (c in s'.calls && s'.calls[c].pc.Alloc? ==>
          var word := s'.calls[c].pc.word;
          At(s, c, Alloc(word)) || word == 0 || FullAt(s, c, word - 1))
    && (At(s', c, Returned(Again)) && HoldsNone(s, c) ==>
          At(s, c, Returned(Again)) || (c in s.calls && s.calls[c].pc.Alloc? && s.calls[c].pc.word >= s.words))
  }

  lemma SameCallScans(s: State, s': State, c: CallId)
    requires s'.words == s.words
    requires c in s'.calls && !s'.calls[c].pc.Idle? ==> c in s.calls && s'.calls[c].pc == s.calls[c].pc
    ensures ScansOn(s, s', c)
  {
  }

  lemma ScanStep(s: State, a: Action, c: CallId)
    ensures ScansOn(s, Step(s, a), c)
  {
    hide ScansOn, CallerStep, WorkerStep;
    match a
    case StepCaller(d) =>
      if d in s.calls {
        CallerScans(s, d, c);
      } else {
        SameCallScans(s, s, c);
      }
    case StepWorker(w) =>
      WorkerKeepsPc(s, w, c);
      SameCallScans(s, Step(s, a), c);
    case TakeLine(d, l) => TakeScans(s, d, l, c);
    case NoWorkers(d) => NoWorkersScans(s, d, c);
    case _ => SameCallScans(s, Step(s, a), c);
  }

  lemma TakeScans(s: State, d: CallId, l: Line, c: CallId)
    ensures ScansOn(s, Step(s, TakeLine(d, l)), c)
  {
    hide FullAt;
  }

  lemma NoWorkersScans(s: State, d: CallId, c: CallId)
    ensures ScansOn(s, Step(s, NoWorkers(d)), c)
  {
    hide FullAt;
  }

  lemma CallerScans(s: State, d: CallId, c: CallId)
    requires d in s.calls
    ensures ScansOn(s, CallerStep(s, d), c)
  {
    hide SpinTurn;
    if d == c {
      hide ScansOn;
      OwnScan(s, c);
    } else {
      CallerKeepsWords(s, d);
      hide CallerStep;
    }
  }

  lemma CallerKeepsWords(s: State, d: CallId)
    requires d in s.calls
    ensures CallerStep(s, d).words == s.words
  {
    hide CallerStep;
    if s.calls[d].pc.Holds() {
      HoldingStep(s, d);
    } else {
      OutsideStep(s, d);
    }
  }

  lemma OwnScan(s: State, c: CallId)
    requires c in s.calls
    ensures ScansOn(s, CallerStep(s, c), c)
  {
    hide CallerStep, NoFreeLineIn;
    if s.calls[c].pc.Holds() {
      HoldingStep(s, c);
    } else {
      OutsideStep(s, c);
    }
  }

  /** A call with a line does not scan. */
  lemma HoldingStep(s: State, c: CallId)
    requires c in s.calls && s.calls[c].pc.Holds()
    ensures CallerStep(s, c).words == s.words
    ensures c in CallerStep(s, c).calls && !CallerStep(s, c).calls[c].pc.Alloc?
  {
    hide SpinTurn;
    match s.calls[c].pc
    case Submit(_) =>
    case Store(_) =>
    case Trigger(_) =>
    case Spin(_, _) =>
    case Revoke(_) =>
    case WaitDone(_) =>
    case Clear(_, _) =>
    case Free(_, _) =>
  }

  lemma OutsideStep(s: State, c: CallId)
    requires c in s.calls && !s.calls[c].pc.Holds()
    ensures CallerStep(s, c).words == s.words && c in CallerStep(s, c).calls
    ensures var pc, pc' := s.calls[c].pc, CallerStep(s, c).calls[c].pc;
      && (pc'.Alloc? ==> pc' == pc || pc' == Alloc(0) || (pc == Alloc(pc'.word - 1) && NoFreeLineIn(s, pc'.word - 1)))
      && (pc'.Returned? ==> pc' == pc || (pc.Alloc? && pc.word >= s.words))
  {
    hide NoFreeLineIn, Dispatch;
    match s.calls[c].pc
    case Idle =>
    case Alloc(_) =>
    case Returned(_) =>
    case Fallback =>
    case Finished(_) =>
  }

  lemma WorkerKeepsPc(s: State, w: WorkerId, c: CallId)
    ensures WorkerStep(s, w).words == s.words
    ensures c in WorkerStep(s, w).calls <==> c in s.calls
    ensures c in s.calls ==> WorkerStep(s, w).calls[c].pc == s.calls[c].pc
  {
    hide Dispatch;
    var worker := s.WorkerAt(w);
    if !worker.Scanning? && !worker.Claimed? && worker.call in s.calls {
      match worker
      case Loaded(l, d) => assert WorkerStep(s, w) == CheckStatus(s, w, l, d);
      case Checked(l, d) => assert WorkerStep(s, w) == Accept(s, w, l, d);
      case Serving(l, d) => assert WorkerStep(s, w) == Serve(s, w, l, d);
      case Answered(l, d) => assert WorkerStep(s, w) == Complete(s, w, l, d);
    }
  }

  lemma SawMore(s: State, actions: seq<Action>, c: CallId, word: nat)
    requires actions != [] && SawFull(s, actions[..|actions| - 1], c, word)
    ensures SawFull(s, actions, c, word)
  {
    hide FullAt;
    var front := actions[..|actions| - 1];
    var k :| 0 <= k <= |front| && FullAt(After(s, front, k), c, word);
    assert actions[..k] == front[..k];
    assert FullAt(After(s, actions, k), c, word);
  }

  lemma HeldLess(s: State, actions: seq<Action>, c: CallId)
    requires actions != [] && NeverHeld(s, actions, c)
    ensures NeverHeld(s, actions[..|actions| - 1], c) && HoldsNone(Run(s, actions[..|actions| - 1]), c)
  {
    hide HoldsNone;
    var front := actions[..|actions| - 1];
    forall k | 0 <= k <= |front| ensures HoldsNone(After(s, front, k), c) {
      assert actions[..k] == front[..k];
      assert HoldsNone(After(s, actions, k), c);
    }
    assert front[..|front|] == front;
    assert HoldsNone(After(s, front, |front|), c);
  }

  lemma SeesNow(s: State, actions: seq<Action>, c: CallId, word: nat)
    requires actions != [] && FullAt(Run(s, actions[..|actions| - 1]), c, word)
    ensures SawFull(s, actions, c, word)
  {
    assert FullAt(After(s, actions, |actions| - 1), c, word);
  }

  lemma {:induction false} ScanSawFull(s: State, actions: seq<Action>, c: CallId, word: nat)
    requires c !in s.calls && NeverHeld(s, actions, c)
    ensures var last := Run(s, actions);
      && last.words == s.words
      && (c in last.calls && last.calls[c].pc.Alloc? && word < last.calls[c].pc.word ==> SawFull(s, actions, c, word))
      && (At(last, c, Returned(Again)) && word < s.words ==> SawFull(s, actions, c, word))
    decreases |actions|
  {
    hide Step, SawFull, FullAt, HoldsNone, NeverHeld;
    if actions != [] {
      var front, a := actions[..|actions| - 1], actions[|actions| - 1];
      var before, last := Run(s, front), Run(s, actions);
      RunSnoc(s, actions);
      HeldLess(s, actions, c);
      ScanSawFull(s, front, c, word);
      ScanStep(before, a, c);
      if SawFull(s, front, c, word) {
        SawMore(s, actions, c, word);
      } else if FullAt(before, c, word) {
        SeesNow(s, actions, c, word);
      } else if c in last.calls && last.calls[c].pc.Alloc? && word < last.calls[c].pc.word {
        FullIsAt(before, c, last.calls[c].pc.word - 1);
      }
    }
  }

  lemma FullIsAt(s: State, c: CallId, word: nat)
    ensures FullAt(s, c, word) ==> At(s, c, Alloc(word))
  {
  }

  /** In every run, a call that returned -EAGAIN without ever having had a line saw each word of
      the free bitmap full when it scanned it. */
  lemma GivesUpOverFullWords(words: nat, table: Table, actions: seq<Action>, c: CallId, word: nat)
    requires At(Run(Initial(words, table), actions), c, Returned(Again))
    requires NeverHeld(Initial(words, table), actions, c) && word < words
    ensures SawFull(Initial(words, table), actions, c, word)
  {
    hide Run, SawFull, NeverHeld;
    ScanSawFull(Initial(words, table), actions, c, word);
  }

  /** The line is free whenever the call scans. */
  ghost predicate StaysFree(s: State, actions: seq<Action>, c: CallId, line: Line) {
    forall k | 0 <= k <= |actions| :: FreeWhileScanned(After(s, actions, k), c, line)
  }

  ghost predicate FreeWhileScanned(s: State, c: CallId, line: Line) {
    c in s.calls && s.calls[c].pc.Alloc? ==> line in s.free
  }

  lemma NotSeenFull(s: State, actions: seq<Action>, c: CallId, line: Line)
    requires StaysFree(s, actions, c, line)
    ensures !SawFull(s, actions, c, line / LINES_PER_WORD)
  {
    forall k | 0 <= k <= |actions| ensures !FullAt(After(s, actions, k), c, line / LINES_PER_WORD) {
      assert FreeWhileScanned(After(s, actions, k), c, line);
    }
  }

  /** So a call never gives up its scan if some line is free whenever it scans. */
  lemma FreeLineIsFound(words: nat, table: Table, actions: seq<Action>, c: CallId, line: Line)
    requires NeverHeld(Initial(words, table), actions, c) && line < words * LINES_PER_WORD
    requires StaysFree(Initial(words, table), actions, c, line)
    ensures !At(Run(Initial(words, table), actions), c, Returned(Again))
  {
    hide Run, NeverHeld, StaysFree, SawFull, Initial;
    NotSeenFull(Initial(words, table), actions, c, line);
    if At(Run(Initial(words, table), actions), c, Returned(Again)) {
      GivesUpOverFullWords(words, table, actions, c, line / LINES_PER_WORD);
    }
  }

  // ----- the busy wait -----

  /** The program point after reading these statuses in turn. */
  ghost function SpinFor(line: Line, tries: nat, seen: seq<Status>): CallPc
    decreases |seen|
  {
    if seen == [] then Spin(line, tries)
    else
      var pc := SpinTurn(line, tries, seen[0]);
      if pc.Spin? then SpinFor(line, pc.tries, seen[1..]) else pc
  }

  /** How many reads max_tries allows: none asked for is 2^32 of them. */
  function Budget(maxTries: nat): nat {
    if maxTries == 0 then TRIES_MODULUS else maxTries
  }

  /** While the request stays submitted the call spins for exactly its budget and then revokes. */
  lemma {:induction false} SpinsForItsBudget(line: Line, tries: nat, seen: seq<Status>)
    requires tries < TRIES_MODULUS && |seen| <= Budget(tries) && forall i | 0 <= i < |seen| :: seen[i] == Submitted
    ensures SpinFor(line, tries, seen)
         == if |seen| < Budget(tries) then Spin(line, (tries + TRIES_MODULUS - |seen|) % TRIES_MODULUS)
            else Revoke(line)
    decreases |seen|
  {
    if seen != [] {
      var left := (tries + TRIES_MODULUS - 1) % TRIES_MODULUS;
      if left > 0 {
        SpinsForItsBudget(line, left, seen[1..]);
      }
    }
  }

  /** Once a worker has it the call waits for the answer, unless it asked for no tries and saw that
      at its first look: it then revokes, although its counter never ran out. */
  lemma {:induction false} SpinStopsWhenTaken(line: Line, tries: nat, seen: seq<Status>, status: Status)
    requires tries < TRIES_MODULUS && |seen| < Budget(tries) && forall i | 0 <= i < |seen| :: seen[i] == Submitted
    requires status != Submitted
    ensures SpinFor(line, tries, seen + [status])
         == if tries == 0 && seen == [] then Revoke(line) else WaitDone(line)
    decreases |seen|
  {
    if seen != [] {
      assert (seen + [status])[1..] == seen[1..] + [status];
      SpinStopsWhenTaken(line, (tries + TRIES_MODULUS - 1) % TRIES_MODULUS, seen[1..], status);
    }
  }

  // ----- every call can return -----

  /** Where the request of a pending call is, counted down to its answer. */
  ghost function WorkLeft(s: State, l: Line): nat {
    if l in s.event then 6
    else if l in s.claims then
      match s.WorkerAt(s.claims[l])
      case Scanning => 0
      case Claimed(_) => 5
      case Loaded(_, _) => 4
      case Checked(_, _) => 3
      case Serving(_, _) => 2
      case Answered(_, _) => 1
    else 0
  }

  ghost function Distance(s: State, c: CallId): nat
    requires c in s.calls
  {
    match s.calls[c].pc
    case Idle => 26 + s.words
    case Alloc(word) => 24 + if word < s.words then s.words - word else 0
    case Submit(_) => 22
    case Store(_) => 21
    case Trigger(_) => 20
    case Spin(l, _) => 5 + WorkLeft(s, l)
    case Revoke(l) => 4 + WorkLeft(s, l)
    case WaitDone(l) => 3 + WorkLeft(s, l)
    case Clear(_, _) => 2
    case Free(_, _) => 1
    case _ => 0
  }

  /** The call can be brought to return 0: it has a line that it has not revoked, or there is a
      free one still to be scanned. */
  ghost predicate CanSucceed(s: State, c: CallId)
    requires c in s.calls
  {
    match s.calls[c].pc
    case Idle => exists l: Line :: l in s.free
    case Alloc(word) => exists l: Line :: l in s.free && l / LINES_PER_WORD >= word
    case Clear(_, code) => code == Success
    case Free(_, code) => code == Success
    case Returned(code) => code == Success
    case Fallback => false
    case Finished(_) => false
    case _ => true
  }

  /** One action brings the call nearer to its return, and keeps the way to success. */
  ghost predicate Closer(s: State, a: Action, c: CallId)
    requires c in s.calls
  {
    var s' := Step(s, a);
    && c in s'.calls
    && (s'.calls[c].pc.Returned? || (!Left(s', c) && Distance(s', c) < Distance(s, c)))
    && (CanSucceed(s, c) ==> CanSucceed(s', c))
  }

  lemma ScanCloser(s: State, c: CallId) returns (a: Action)
    requires Inv(s) && c in s.calls && (s.calls[c].pc.Idle? || s.calls[c].pc.Alloc?)
    ensures Closer(s, a, c)
  {
    hide Inv;
    a := StepCaller(c);
    if s.calls[c].pc.Alloc? {
      var word := s.calls[c].pc.word;
      FreeLinesFit(s);
      if word < s.words && !NoFreeLineIn(s, word) {
        var l :| l in s.free && l / LINES_PER_WORD == word;
        a := TakeLine(c, l);
      }
    }
  }

  lemma FreeLinesFit(s: State)
    requires Inv(s)
    ensures forall l: Line | l in s.free :: l / LINES_PER_WORD < s.words
  {
  }

  lemma CallerCloser(s: State, c: CallId)
    requires Inv(s) && c in s.calls && s.calls[c].pc.Holds() && !s.calls[c].pc.Pending()
    ensures Closer(s, StepCaller(c), c)
  {
    InvAt(s, c);
    hide Inv;
  }

  /** A signalled request is claimed by a worker. */
  lemma SignalCloser(s: State, c: CallId, w: WorkerId)
    requires c in s.calls && s.calls[c].pc.Pending() && s.calls[c].pc.line in s.event && w !in s.workers
    ensures Closer(s, ClaimSignal(w, s.calls[c].pc.line), c)
  {
  }

  /** A claimed request is carried on by its worker. */
  lemma WorkerCloser(s: State, c: CallId, l: Line, w: WorkerId)
    requires Inv(s) && c in s.calls && s.calls[c].pc.Pending() && s.calls[c].pc.line == l
    requires l !in s.event && l in s.claims && s.claims[l] == w
    ensures Closer(s, StepWorker(w), c)
  {
    InvAt(s, c);
    hide Inv, Dispatch;
    assert PendingOk(s, l, c);
    WorkerKeepsPc(s, w, c);
    match s.WorkerAt(w)
    case Claimed(_) => assert WorkerStep(s, w) == LoadBuffer(s, w, l);
    case Loaded(_, _) => assert WorkerStep(s, w) == CheckStatus(s, w, l, c);
    case Checked(_, _) => assert WorkerStep(s, w) == Accept(s, w, l, c);
    case Serving(_, _) => assert WorkerStep(s, w) == Serve(s, w, l, c);
    case Answered(_, _) => assert WorkerStep(s, w) == Complete(s, w, l, c);
  }

  /** An answered request is seen by its caller. */
  lemma AnswerCloser(s: State, c: CallId)
    requires Inv(s) && c in s.calls && s.calls[c].pc.Pending()
    requires s.calls[c].pc.line !in s.event && s.calls[c].pc.line !in s.claims
    ensures Closer(s, StepCaller(c), c)
  {
    InvAt(s, c);
    hide Inv;
    assert PendingOk(s, s.calls[c].pc.line, c);
    match s.calls[c].pc
    case Spin(_, _) =>
    case Revoke(_) =>
    case WaitDone(_) =>
  }

  lemma PendingCloser(s: State, c: CallId) returns (a: Action)
    requires Inv(s) && c in s.calls && s.calls[c].pc.Pending()
    ensures Closer(s, a, c)
  {
    hide Inv, Closer;
    var l := s.calls[c].pc.line;
    if l in s.event {
      var w := Fresh(s.workers.Keys);
      a := ClaimSignal(w, l);
      assert w !in s.workers;
      SignalCloser(s, c, w);
    } else if l in s.claims {
      a := StepWorker(s.claims[l]);
      WorkerCloser(s, c, l, s.claims[l]);
    } else {
      a := StepCaller(c);
      AnswerCloser(s, c);
    }
  }

  lemma {:induction false} ReturnFrom(s: State, c: CallId) returns (actions: seq<Action>)
    requires Inv(s) && c in s.calls && !Left(s, c)
    ensures c in Run(s, actions).calls && Run(s, actions).calls[c].pc.Returned?
    ensures CanSucceed(s, c) ==> Run(s, actions).calls[c].pc == Returned(Success)
    decreases Distance(s, c)
  {
    var a: Action;
    if s.calls[c].pc.Pending() {
      a := PendingCloser(s, c);
    } else if s.calls[c].pc.Holds() {
      a := StepCaller(c);
      CallerCloser(s, c);
    } else {
      a := ScanCloser(s, c);
    }
    StepInv(s, a);
    var s' := Step(s, a);
    hide Inv, Step, Distance;
    if s'.calls[c].pc.Returned? {
      actions := [a];
      assert Run(s', []) == s' && [a][1..] == [];
    } else {
      var rest := ReturnFrom(s', c);
      actions := [a] + rest;
      assert ([a] + rest)[1..] == rest;
    }
  }

  /** From every state of every run, each call that has not returned can be brought to return,
      and to return 0 if it has a line it has not revoked or a free one is still to be scanned. */
  lemma EveryCallCanReturn(s: State, c: CallId)
    requires Reachable(s) && c in s.calls && !Left(s, c)
    ensures exists actions :: c in Run(s, actions).calls && Run(s, actions).calls[c].pc.Returned?
                              && (CanSucceed(s, c) ==> Run(s, actions).calls[c].pc == Returned(Success))
  {
    hide Inv, CanSucceed, Run;
    ReachableInv(s);
    var actions := ReturnFrom(s, c);
  }
}
