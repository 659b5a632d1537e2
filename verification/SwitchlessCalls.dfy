/** Switchless calls: callers hand requests to worker threads through signal lines.
    The protocol is an interleaving state machine.  An action is one atomic access to
    shared memory (a bitmap operation, a read or a write of a buffer's status, of a
    result or of a buffer pointer) together with the local code around it; a run is any
    sequence of actions of any callers and workers. */
module SwitchlessCalls {
  import opened Basics

  type Line = nat
  type CallId = nat
  type WorkerId = nat

  const LINES_PER_WORD: nat := 64
  const TRIES_MODULUS: nat := 0x1_0000_0000

  /** What a dispatched call answers: an error, or the function's own result. */
  datatype Answer = Unexpected | InvalidFunction | NotAllowed | Result(value: int)

  /** The registered functions: a null entry is None, an entry is what the function returns. */
  type Table = seq<Option<int>>

  function Dispatch(table: Table, fn: nat): Answer {
    if fn >= |table| then InvalidFunction
    else if table[fn].None? then NotAllowed
    else Result(table[fn].value)
  }

  datatype Status = Init | Submitted | Accepted | Done

  /** The return code of the protocol: 0 or -EAGAIN. */
  datatype Code = Success | Again

  /** Where a caller is.  Idle and the last three belong to the ECall around the protocol. */
  datatype CallPc =
    | Idle
    | Alloc(word: nat)
    | Submit(line: Line)
    | Store(line: Line)
    | Trigger(line: Line)
    | Spin(line: Line, tries: nat)
    | Revoke(line: Line)
    | WaitDone(line: Line)
    | Clear(line: Line, code: Code)
    | Free(line: Line, code: Code)
    | Returned(code: Code)
    | Fallback
    | Finished(answer: Answer)
  {
    predicate Holds() {
      Submit? || Store? || Trigger? || Spin? || Revoke? || WaitDone? || Clear? || Free?
    }

    /** The request is visible to workers and not yet known to be over. */
    predicate Pending() {
      Spin? || Revoke? || WaitDone?
    }
  }

  /** A call: its program point, its buffer's status and result, its arguments, and two
      counters that record how often it was run by a worker and by the fallback. */
  datatype Call = Call(pc: CallPc, status: Status, ret: Answer, fn: nat, maxTries: nat,
                       byWorker: nat, direct: nat)

  datatype Worker =
    | Scanning
    | Claimed(line: Line)
    | Loaded(line: Line, call: CallId)
    | Checked(line: Line, call: CallId)
    | Serving(line: Line, call: CallId)
    | Answered(line: Line, call: CallId)

  /** The shared state.  `owner` and `claims` only record history: which call took a line
      and which worker cleared its event bit; no action reads them. */
  datatype State = State(
    words: nat,
    table: Table,
    free: set<Line>,
    event: set<Line>,
    bufs: map<Line, CallId>,
    calls: map<CallId, Call>,
    workers: map<WorkerId, Worker>,
    bug: bool,
    owner: map<Line, CallId>,
    claims: map<Line, WorkerId>)
  {
    function NumLines(): nat {
      words * LINES_PER_WORD
    }

    function WorkerAt(w: WorkerId): Worker {
      if w in workers then workers[w] else Scanning
    }

    function SetPc(c: CallId, pc: CallPc): State
      requires c in calls
    {
      this.(calls := calls[c := calls[c].(pc := pc)])
    }
  }

  function Lines(n: nat): (s: set<Line>)
    ensures forall l: Line :: l in s <==> l < n
    ensures |s| == n
  {
    if n == 0 then {} else Lines(n - 1) + {n - 1}
  }

  function Initial(words: nat, table: Table): State {
    State(words, table, Lines(words * LINES_PER_WORD), {}, map[], map[], map[], false, map[], map[])
  }

  /** A new call, a call that finds no running worker, a caller taking a line of the word
      it scans, a caller's next step, a worker claiming a signal, a worker's next step. */
  datatype Action =
    | Begin(call: CallId, fn: nat, maxTries: nat)
    | NoWorkers(call: CallId)
    | TakeLine(call: CallId, line: Line)
    | StepCaller(call: CallId)
    | ClaimSignal(worker: WorkerId, line: Line)
    | StepWorker(worker: WorkerId)

  /** The buffer a caller fills before it enters the protocol. */
  function NewCall(fn: nat, maxTries: nat): Call {
    Call(Idle, Init, Unexpected, fn, maxTries % TRIES_MODULUS, 0, 0)
  }

  /** One turn of the first busy-wait loop: the status read, then `--max_tries > 0`. */
  function SpinTurn(line: Line, tries: nat, status: Status): (pc: CallPc)
    ensures pc.Pending() && pc.line == line
    ensures pc.WaitDone? ==> status != Submitted
  {
    if status == Submitted && (tries + TRIES_MODULUS - 1) % TRIES_MODULUS > 0 then
      Spin(line, (tries + TRIES_MODULUS - 1) % TRIES_MODULUS)
    else if status == Submitted || tries == 0 then Revoke(line)
    else WaitDone(line)
  }

  // A caller's steps.

  ghost predicate At(s: State, c: CallId, pc: CallPc) {
    c in s.calls && s.calls[c].pc == pc
  }

  /** At most one call's record differs. */
  ghost predicate ChangesCall(s: State, s': State, c: CallId) {
    c in s'.calls && s'.calls == s.calls[c := s'.calls[c]]
  }

  /** Word `word` of the free bitmap reads zero. */
  predicate NoFreeLineIn(s: State, word: nat) {
    forall l | l in s.free :: l / LINES_PER_WORD != word
  }

  function Enter(s: State, c: CallId): (s': State)
    requires At(s, c, Idle)
    ensures ChangesCall(s, s', c)
  {
    s.SetPc(c, Alloc(0))
  }

  /** Scan the next word, or give up after the last one. */
  function ScanOn(s: State, c: CallId, word: nat): (s': State)
    requires At(s, c, Alloc(word))
    ensures ChangesCall(s, s', c)
  {
    if word >= s.words then s.SetPc(c, Returned(Again))
    else if NoFreeLineIn(s, word) then s.SetPc(c, Alloc(word + 1))
    else s
  }

  function Take(s: State, c: CallId, word: nat, line: Line): (s': State)
    requires At(s, c, Alloc(word))
    ensures ChangesCall(s, s', c)
  {
    if line in s.free && line / LINES_PER_WORD == word then
      s.(free := s.free - {line}, owner := s.owner[line := c],
         calls := s.calls[c := s.calls[c].(pc := Submit(line))])
    else s
  }

  function MarkSubmitted(s: State, c: CallId, line: Line): (s': State)
    requires At(s, c, Submit(line))
    ensures ChangesCall(s, s', c)
  {
    if s.calls[c].status != Init then s.(bug := true)
    else s.(calls := s.calls[c := s.calls[c].(pc := Store(line), status := Submitted)])
  }

  function StoreBuffer(s: State, c: CallId, line: Line): (s': State)
    requires At(s, c, Store(line))
    ensures ChangesCall(s, s', c)
  {
    s.(bufs := s.bufs[line := c], calls := s.calls[c := s.calls[c].(pc := Trigger(line))])
  }

  function TriggerSignal(s: State, c: CallId, line: Line): (s': State)
    requires At(s, c, Trigger(line))
    ensures ChangesCall(s, s', c)
  {
    s.(event := s.event + {line}, calls := s.calls[c := s.calls[c].(pc := Spin(line, s.calls[c].maxTries))])
  }

  function SpinOnce(s: State, c: CallId, line: Line, tries: nat): (s': State)
    requires At(s, c, Spin(line, tries))
    ensures ChangesCall(s, s', c)
  {
    s.SetPc(c, SpinTurn(line, tries, s.calls[c].status))
  }

  function RevokeSignal(s: State, c: CallId, line: Line): (s': State)
    requires At(s, c, Revoke(line))
    ensures ChangesCall(s, s', c)
  {
    if line in s.event then
      s.(event := s.event - {line}, calls := s.calls[c := s.calls[c].(pc := Clear(line, Again))])
    else s.SetPc(c, WaitDone(line))
  }

  function AwaitDone(s: State, c: CallId, line: Line): (s': State)
    requires At(s, c, WaitDone(line))
    ensures ChangesCall(s, s', c)
  {
    if s.calls[c].status == Done then s.SetPc(c, Clear(line, Success)) else s
  }

  function ClearBuffer(s: State, c: CallId, line: Line, code: Code): (s': State)
    requires At(s, c, Clear(line, code))
    ensures ChangesCall(s, s', c)
  {
    s.(bufs := s.bufs - {line}, calls := s.calls[c := s.calls[c].(pc := Free(line, code))])
  }

  function FreeLine(s: State, c: CallId, line: Line, code: Code): (s': State)
    requires At(s, c, Free(line, code))
    ensures ChangesCall(s, s', c)
  {
    s.(free := s.free + {line}, owner := s.owner - {line},
       calls := s.calls[c := s.calls[c].(pc := Returned(code))])
  }

  /** Back in the ECall: take the result, or fall back to a normal ECall. */
  function Leave(s: State, c: CallId, code: Code): (s': State)
    requires At(s, c, Returned(code))
    ensures ChangesCall(s, s', c)
  {
    s.SetPc(c, if code == Success then Finished(s.calls[c].ret) else Fallback)
  }

  function RunDirectly(s: State, c: CallId): (s': State)
    requires At(s, c, Fallback)
    ensures ChangesCall(s, s', c)
  {
    var call := s.calls[c];
    s.(calls := s.calls[c := call.(pc := Finished(Dispatch(s.table, call.fn)), direct := call.direct + 1)])
  }

  function CallerStep(s: State, c: CallId): (s': State)
    requires c in s.calls
    ensures ChangesCall(s, s', c)
  {
    match s.calls[c].pc
    case Idle => Enter(s, c)
    case Alloc(word) => ScanOn(s, c, word)
    case Submit(line) => MarkSubmitted(s, c, line)
    case Store(line) => StoreBuffer(s, c, line)
    case Trigger(line) => TriggerSignal(s, c, line)
    case Spin(line, tries) => SpinOnce(s, c, line, tries)
    case Revoke(line) => RevokeSignal(s, c, line)
    case WaitDone(line) => AwaitDone(s, c, line)
    case Clear(line, code) => ClearBuffer(s, c, line, code)
    case Free(line, code) => FreeLine(s, c, line, code)
    case Returned(code) => Leave(s, c, code)
    case Fallback => RunDirectly(s, c)
    case Finished(_) => s
  }

  // A worker's steps.

  function Claim(s: State, w: WorkerId, line: Line): State {
    if s.WorkerAt(w).Scanning? && line in s.event then
      s.(event := s.event - {line}, claims := s.claims[line := w], workers := s.workers[w := Claimed(line)])
    else s
  }

  function LoadBuffer(s: State, w: WorkerId, line: Line): State {
    if line in s.bufs then s.(workers := s.workers[w := Loaded(line, s.bufs[line])])
    else s.(bug := true)
  }

  function CheckStatus(s: State, w: WorkerId, line: Line, c: CallId): State
    requires c in s.calls
  {
    if s.calls[c].status == Submitted then s.(workers := s.workers[w := Checked(line, c)])
    else s.(bug := true)
  }

  function Accept(s: State, w: WorkerId, line: Line, c: CallId): State
    requires c in s.calls
  {
    s.(calls := s.calls[c := s.calls[c].(status := Accepted)], workers := s.workers[w := Serving(line, c)])
  }

  function Serve(s: State, w: WorkerId, line: Line, c: CallId): State
    requires c in s.calls
  {
    var call := s.calls[c];
    s.(calls := s.calls[c := call.(ret := Dispatch(s.table, call.fn), byWorker := call.byWorker + 1)],
       workers := s.workers[w := Answered(line, c)])
  }

  function Complete(s: State, w: WorkerId, line: Line, c: CallId): State
    requires c in s.calls
  {
    s.(calls := s.calls[c := s.calls[c].(status := Done)],
       workers := s.workers[w := Scanning], claims := s.claims - {line})
  }

  function WorkerStep(s: State, w: WorkerId): State {
    var worker := s.WorkerAt(w);
    if worker.Scanning? then s
    else if worker.Claimed? then LoadBuffer(s, w, worker.line)
    else if worker.call !in s.calls then s.(bug := true)
    else match worker
      case Loaded(line, c) => CheckStatus(s, w, line, c)
      case Checked(line, c) => Accept(s, w, line, c)
      case Serving(line, c) => Serve(s, w, line, c)
      case Answered(line, c) => Complete(s, w, line, c)
  }

  /** An action that is not enabled leaves the state as it is. */
  function Step(s: State, a: Action): State {
    match a
    case Begin(c, fn, maxTries) =>
      if c in s.calls then s else s.(calls := s.calls[c := NewCall(fn, maxTries)])
    case NoWorkers(c) =>
      if c in s.calls && s.calls[c].pc.Idle? then s.SetPc(c, Fallback) else s
    case TakeLine(c, line) =>
      if c in s.calls && s.calls[c].pc.Alloc? then Take(s, c, s.calls[c].pc.word, line) else s
    case StepCaller(c) => if c in s.calls then CallerStep(s, c) else s
    case ClaimSignal(w, line) => Claim(s, w, line)
    case StepWorker(w) => WorkerStep(s, w)
  }

  function Run(s: State, actions: seq<Action>): State
    decreases |actions|
  {
    if actions == [] then s else Run(Step(s, actions[0]), actions[1..])
  }

  // ----- the invariant -----

  /** The request of a pending call is in exactly one place: signalled, claimed by one
      worker, or answered. */
  ghost predicate PendingOk(s: State, l: Line, c: CallId)
    requires c in s.calls
  {
    var call := s.calls[c];
    && l in s.bufs && s.bufs[l] == c
    && call.direct == 0
    && (l in s.event ==>
          l !in s.claims && call.status == Submitted && call.byWorker == 0 && !call.pc.WaitDone?)
    && (l in s.claims ==>
          && l !in s.event
          && match s.WorkerAt(s.claims[l])
             case Scanning => false
             case Claimed(l') => l' == l && call.status == Submitted && call.byWorker == 0
             case Loaded(l', c') => l' == l && c' == c && call.status == Submitted && call.byWorker == 0
             case Checked(l', c') => l' == l && c' == c && call.status == Submitted && call.byWorker == 0
             case Serving(l', c') => l' == l && c' == c && call.status == Accepted && call.byWorker == 0
             case Answered(l', c') => l' == l && c' == c && call.status == Accepted && RanOnce(s, call))
    && (l !in s.event && l !in s.claims ==> call.status == Done && RanOnce(s, call))
  }

  /** The call was run by exactly one worker, and the result is in its buffer. */
  ghost predicate RanOnce(s: State, call: Call) {
    call.byWorker == 1 && call.ret == Dispatch(s.table, call.fn)
  }

  ghost predicate Untouched(call: Call) {
    call.byWorker == 0 && call.direct == 0
  }

  ghost predicate CodeOk(s: State, call: Call, code: Code) {
    && call.direct == 0
    && match code
       case Success => call.status == Done && RanOnce(s, call)
       case Again => call.byWorker == 0
  }

  /** What holds of a line taken by call c. */
  ghost predicate TakenOk(s: State, l: Line, c: CallId) {
    && c in s.calls
    && var pc := s.calls[c].pc;
    && pc.Holds() && pc.line == l
    && (!pc.Pending() ==> l !in s.event && l !in s.claims)
    && (pc.Submit? ==> s.calls[c].status == Init && Untouched(s.calls[c]) && l !in s.bufs)
    && (pc.Store? ==> s.calls[c].status == Submitted && Untouched(s.calls[c]) && l !in s.bufs)
    && (pc.Trigger? ==> s.calls[c].status == Submitted && Untouched(s.calls[c]) && l in s.bufs && s.bufs[l] == c)
    && (pc.Pending() ==> PendingOk(s, l, c))
    && (pc.Clear? ==> CodeOk(s, s.calls[c], pc.code))
    && (pc.Free? ==> CodeOk(s, s.calls[c], pc.code) && l !in s.bufs)
  }

  ghost predicate LineOk(s: State, l: Line) {
    if l in s.free then l !in s.owner && l !in s.event && l !in s.claims && l !in s.bufs
    else l in s.owner && TakenOk(s, l, s.owner[l])
  }

  ghost predicate CallOk(s: State, c: CallId)
    requires c in s.calls
  {
    var call := s.calls[c];
    match call.pc
    case Idle => call.status == Init && Untouched(call)
    case Alloc(_) => call.status == Init && Untouched(call)
    case Returned(code) => CodeOk(s, call, code)
    case Fallback => Untouched(call)
    case Finished(answer) => call.byWorker + call.direct == 1 && answer == Dispatch(s.table, call.fn)
    case _ => call.pc.line < s.NumLines() && call.pc.line in s.owner && s.owner[call.pc.line] == c
  }

  ghost predicate WorkerOk(s: State, w: WorkerId) {
    s.WorkerAt(w).Scanning? || (s.WorkerAt(w).line in s.claims && s.claims[s.WorkerAt(w).line] == w)
  }

  ghost predicate Inv(s: State) {
    && !s.bug
    && (forall l: Line | l in s.free || l in s.event || l in s.claims || l in s.owner || l in s.bufs ::
          l < s.NumLines())
    && (forall l: Line | l < s.NumLines() :: LineOk(s, l))
    && (forall c | c in s.calls :: CallOk(s, c))
    && (forall w | w in s.workers :: WorkerOk(s, w))
  }

  lemma InitialInv(words: nat, table: Table)
    ensures Inv(Initial(words, table))
  {
  }

  lemma InvAt(s: State, c: CallId)
    requires Inv(s) && c in s.calls
    ensures CallOk(s, c) && !s.bug
    ensures s.calls[c].pc.Holds() ==> LineOk(s, s.calls[c].pc.line) && s.calls[c].pc.line !in s.free
  {
    assert CallOk(s, c);
    if s.calls[c].pc.Holds() {
      var l := s.calls[c].pc.line;
      assert LineOk(s, l);
    }
  }

  lemma InvLine(s: State, l: Line)
    requires Inv(s) && (l in s.free || l in s.event || l in s.claims || l in s.owner || l in s.bufs)
    ensures LineOk(s, l) && l < s.NumLines()
  {
  }

  lemma InvWorker(s: State, w: WorkerId)
    requires Inv(s)
    ensures WorkerOk(s, w) && !s.bug
  {
  }

  /** s' differs from s at most at line l, call c and worker w, and c and w are at no
      line but l. */
  ghost predicate ChangesOnly(s: State, s': State, l: Line, c: CallId, w: WorkerId) {
    && s'.words == s.words && s'.table == s.table && s'.bug == s.bug
    && (forall k: Line | k != l ::
          && (k in s'.free <==> k in s.free)
          && (k in s'.event <==> k in s.event)
          && (k in s'.bufs <==> k in s.bufs) && (k in s.bufs ==> s'.bufs[k] == s.bufs[k])
          && (k in s'.owner <==> k in s.owner) && (k in s.owner ==> s'.owner[k] == s.owner[k])
          && (k in s'.claims <==> k in s.claims) && (k in s.claims ==> s'.claims[k] == s.claims[k]))
    && (forall d | d != c :: (d in s'.calls <==> d in s.calls) && (d in s.calls ==> s'.calls[d] == s.calls[d]))
    && (forall v | v != w ::
          (v in s'.workers <==> v in s.workers) && (v in s.workers ==> s'.workers[v] == s.workers[v]))
    && (c in s.calls && s.calls[c].pc.Holds() ==> s.calls[c].pc.line == l)
    && (s.WorkerAt(w).Scanning? || s.WorkerAt(w).line == l)
    && l < s.NumLines()
    && (l in s.owner && s.owner[l] != c ==> l in s'.owner && s'.owner[l] == s.owner[l])
    && (l in s.claims && s.claims[l] != w ==> l in s'.claims && s'.claims[l] == s.claims[l])
  }

  /** A step keeps the invariant if it does so at the one line, call and worker it changes. */
  lemma LocalStepInv(s: State, s': State, l: Line, c: CallId, w: WorkerId)
    requires Inv(s) && ChangesOnly(s, s', l, c, w)
    requires LineOk(s', l)
    requires c in s'.calls ==> CallOk(s', c)
    requires WorkerOk(s', w)
    ensures Inv(s')
  {
    forall k: Line | k < s.NumLines() ensures LineOk(s', k) {
      if k != l {
        OtherLineOk(s, s', l, c, w, k);
      }
    }
    forall d | d in s'.calls ensures CallOk(s', d) {
      assert d != c ==> CallOk(s, d);
    }
    forall v | v in s'.workers ensures WorkerOk(s', v) {
      assert v != w ==> WorkerOk(s, v);
    }
  }

  lemma OtherLineOk(s: State, s': State, l: Line, c: CallId, w: WorkerId, k: Line)
    requires Inv(s) && ChangesOnly(s, s', l, c, w) && k != l && k < s.NumLines()
    ensures LineOk(s', k)
  {
    assert LineOk(s, k);
    if k in s.owner {
      var d := s.owner[k];
      assert d != c;
      assert s'.calls[d] == s.calls[d];
      if k in s.claims {
        assert s.claims[k] != w;
        assert s'.WorkerAt(s.claims[k]) == s.WorkerAt(s.claims[k]);
      }
    }
  }

  /** Replacing a call that holds no line by one that holds no line. */
  lemma ReplaceCallInv(s: State, c: CallId, call: Call)
    requires Inv(s) && (c in s.calls ==> !s.calls[c].pc.Holds()) && !call.pc.Holds()
    requires var s' := s.(calls := s.calls[c := call]); CallOk(s', c)
    ensures Inv(s.(calls := s.calls[c := call]))
  {
    var s' := s.(calls := s.calls[c := call]);
    forall k: Line | k < s.NumLines() ensures LineOk(s', k) {
      assert LineOk(s, k);
    }
    forall d | d in s'.calls ensures CallOk(s', d) {
      assert d != c ==> CallOk(s, d);
    }
    forall v | v in s'.workers ensures WorkerOk(s', v) {
      assert WorkerOk(s, v);
    }
  }

  lemma {:induction false} Fresh(used: set<nat>) returns (x: nat)
    ensures forall y | y in used :: y < x
    decreases used
  {
    if used == {} {
      x := 0;
    } else {
      var y :| y in used;
      x := Fresh(used - {y});
      x := if x <= y then y + 1 else x;
      assert forall z | z in used :: z == y || z in used - {y};
    }
  }

  /** A caller's step at one line: no worker changes. */
  lemma CallerLineStepInv(s: State, s': State, l: Line, c: CallId)
    requires Inv(s) && l < s.NumLines() && c in s.calls && c in s'.calls
    requires s' == s.(free := s'.free, event := s'.event, bufs := s'.bufs, owner := s'.owner, calls := s'.calls)
    requires s'.calls == s.calls[c := s'.calls[c]]
    requires s'.free - {l} == s.free - {l} && s'.event - {l} == s.event - {l}
    requires s'.bufs - {l} == s.bufs - {l} && s'.owner - {l} == s.owner - {l}
    requires s.calls[c].pc.Holds() ==> s.calls[c].pc.line == l
    requires l in s.owner ==> s.owner[l] == c
    requires LineOk(s', l) && CallOk(s', c)
    ensures Inv(s')
  {
    hide Inv, LineOk, CallOk;
    var w := Fresh(s.workers.Keys);
    SameElsewhere(s.free, s'.free, s.event, s'.event, l);
    SameMapElsewhere(s.bufs, s'.bufs, l);
    SameMapElsewhere(s.owner, s'.owner, l);
    LocalStepInv(s, s', l, c, w);
  }

  lemma SameElsewhere(a: set<Line>, a': set<Line>, b: set<Line>, b': set<Line>, l: Line)
    requires a' - {l} == a - {l} && b' - {l} == b - {l}
    ensures forall k: Line | k != l :: (k in a' <==> k in a) && (k in b' <==> k in b)
  {
    forall k: Line | k != l ensures (k in a' <==> k in a) && (k in b' <==> k in b) {
      assert (k in a' - {l} <==> k in a - {l}) && (k in b' - {l} <==> k in b - {l});
    }
  }

  lemma SameMapElsewhere(m: map<Line, CallId>, m': map<Line, CallId>, l: Line)
    requires m' - {l} == m - {l}
    ensures forall k: Line | k != l :: (k in m' <==> k in m) && (k in m ==> m'[k] == m[k])
  {
    forall k: Line | k != l ensures (k in m' <==> k in m) && (k in m ==> m'[k] == m[k]) {
      assert k in m' - {l} <==> k in m - {l};
      assert k in m ==> (m - {l})[k] == m[k];
    }
  }

  lemma TakeInv(s: State, c: CallId, word: nat, l: Line)
    requires Inv(s) && At(s, c, Alloc(word))
    ensures Inv(Take(s, c, word, l))
  {
    hide Inv;
    if l in s.free && l / LINES_PER_WORD == word {
      InvAt(s, c);
      InvLine(s, l);
      CallerLineStepInv(s, Take(s, c, word, l), l, c);
    }
  }

  lemma MarkSubmittedInv(s: State, c: CallId, l: Line)
    requires Inv(s) && At(s, c, Submit(l))
    ensures Inv(MarkSubmitted(s, c, l))
  {
    hide Inv;
    InvAt(s, c);
    CallerLineStepInv(s, MarkSubmitted(s, c, l), l, c);
  }

  lemma StoreBufferInv(s: State, c: CallId, l: Line)
    requires Inv(s) && At(s, c, Store(l))
    ensures Inv(StoreBuffer(s, c, l))
  {
    hide Inv;
    InvAt(s, c);
    CallerLineStepInv(s, StoreBuffer(s, c, l), l, c);
  }

  lemma TriggerSignalInv(s: State, c: CallId, l: Line)
    requires Inv(s) && At(s, c, Trigger(l))
    ensures Inv(TriggerSignal(s, c, l))
  {
    hide Inv;
    InvAt(s, c);
    CallerLineStepInv(s, TriggerSignal(s, c, l), l, c);
  }

  lemma SpinOnceInv(s: State, c: CallId, l: Line, tries: nat)
    requires Inv(s) && At(s, c, Spin(l, tries))
    ensures Inv(SpinOnce(s, c, l, tries))
  {
    hide Inv, SpinTurn;
    InvAt(s, c);
    CallerLineStepInv(s, SpinOnce(s, c, l, tries), l, c);
  }

  lemma RevokeSignalInv(s: State, c: CallId, l: Line)
    requires Inv(s) && At(s, c, Revoke(l))
    ensures Inv(RevokeSignal(s, c, l))
  {
    hide Inv;
    InvAt(s, c);
    CallerLineStepInv(s, RevokeSignal(s, c, l), l, c);
  }

  lemma AwaitDoneInv(s: State, c: CallId, l: Line)
    requires Inv(s) && At(s, c, WaitDone(l))
    ensures Inv(AwaitDone(s, c, l))
  {
    hide Inv;
    InvAt(s, c);
    if s.calls[c].status == Done {
      CallerLineStepInv(s, AwaitDone(s, c, l), l, c);
    }
  }

  lemma ClearBufferInv(s: State, c: CallId, l: Line, code: Code)
    requires Inv(s) && At(s, c, Clear(l, code))
    ensures Inv(ClearBuffer(s, c, l, code))
  {
    hide Inv;
    InvAt(s, c);
    CallerLineStepInv(s, ClearBuffer(s, c, l, code), l, c);
  }

  lemma FreeLineInv(s: State, c: CallId, l: Line, code: Code)
    requires Inv(s) && At(s, c, Free(l, code))
    ensures Inv(FreeLine(s, c, l, code))
  {
    hide Inv;
    InvAt(s, c);
    CallerLineStepInv(s, FreeLine(s, c, l, code), l, c);
  }

  lemma OutsideStepInv(s: State, c: CallId)
    requires Inv(s) && c in s.calls && !s.calls[c].pc.Holds()
    ensures Inv(CallerStep(s, c))
  {
    hide Inv, LineOk, NoFreeLineIn;
    InvAt(s, c);
    var call := s.calls[c];
    match call.pc
    case Idle => ReplaceCallInv(s, c, call.(pc := Alloc(0)));
    case Alloc(word) =>
      ReplaceCallInv(s, c, call.(pc := Alloc(word + 1)));
      ReplaceCallInv(s, c, call.(pc := Returned(Again)));
    case Returned(code) =>
      ReplaceCallInv(s, c, call.(pc := if code == Success then Finished(call.ret) else Fallback));
    case Fallback =>
      ReplaceCallInv(s, c, call.(pc := Finished(Dispatch(s.table, call.fn)), direct := call.direct + 1));
    case _ =>
  }

  lemma CallerStepInv(s: State, c: CallId)
    requires Inv(s) && c in s.calls
    ensures Inv(CallerStep(s, c))
  {
    hide Inv, ScanOn, MarkSubmitted, StoreBuffer, TriggerSignal, SpinOnce, RevokeSignal, AwaitDone,
         ClearBuffer, FreeLine, Leave, RunDirectly;
    match s.calls[c].pc
    case Submit(l) => MarkSubmittedInv(s, c, l);
    case Store(l) => StoreBufferInv(s, c, l);
    case Trigger(l) => TriggerSignalInv(s, c, l);
    case Spin(l, tries) => SpinOnceInv(s, c, l, tries);
    case Revoke(l) => RevokeSignalInv(s, c, l);
    case WaitDone(l) => AwaitDoneInv(s, c, l);
    case Clear(l, code) => ClearBufferInv(s, c, l, code);
    case Free(l, code) => FreeLineInv(s, c, l, code);
    case _ => OutsideStepInv(s, c);
  }

  // ----- workers -----

  lemma ClaimInv(s: State, w: WorkerId, l: Line)
    requires Inv(s)
    ensures Inv(Claim(s, w, l))
  {
    hide Inv;
    if s.WorkerAt(w).Scanning? && l in s.event {
      InvLine(s, l);
      InvWorker(s, w);
      InvAt(s, s.owner[l]);
      LocalStepInv(s, Claim(s, w, l), l, s.owner[l], w);
    }
  }

  /** A worker that is not scanning is at a line whose call is still waiting, and it is the
      only worker there; the call it works for, once known, is the line's owner. */
  lemma WorkerIsAtPendingCall(s: State, w: WorkerId)
    requires Inv(s) && !s.WorkerAt(w).Scanning?
    ensures var l := s.WorkerAt(w).line;
            && l < s.NumLines() && l in s.owner && l in s.claims && s.claims[l] == w
            && s.owner[l] in s.calls && s.calls[s.owner[l]].pc.Pending() && s.calls[s.owner[l]].pc.line == l
            && PendingOk(s, l, s.owner[l])
            && (!s.WorkerAt(w).Claimed? ==> s.WorkerAt(w).call == s.owner[l])
  {
    InvWorker(s, w);
    InvLine(s, s.WorkerAt(w).line);
  }

  lemma LoadBufferInv(s: State, w: WorkerId, l: Line)
    requires Inv(s) && s.WorkerAt(w) == Claimed(l)
    ensures Inv(LoadBuffer(s, w, l))
  {
    WorkerIsAtPendingCall(s, w);
    hide Inv;
    InvAt(s, s.owner[l]);
    LocalStepInv(s, LoadBuffer(s, w, l), l, s.owner[l], w);
  }

  lemma CheckStatusInv(s: State, w: WorkerId, l: Line, c: CallId)
    requires Inv(s) && s.WorkerAt(w) == Loaded(l, c) && c in s.calls
    ensures Inv(CheckStatus(s, w, l, c))
  {
    WorkerIsAtPendingCall(s, w);
    hide Inv;
    InvAt(s, c);
    LocalStepInv(s, CheckStatus(s, w, l, c), l, c, w);
  }

  lemma AcceptInv(s: State, w: WorkerId, l: Line, c: CallId)
    requires Inv(s) && s.WorkerAt(w) == Checked(l, c) && c in s.calls
    ensures Inv(Accept(s, w, l, c))
  {
    WorkerIsAtPendingCall(s, w);
    hide Inv;
    InvAt(s, c);
    LocalStepInv(s, Accept(s, w, l, c), l, c, w);
  }

  lemma ServeInv(s: State, w: WorkerId, l: Line, c: CallId)
    requires Inv(s) && s.WorkerAt(w) == Serving(l, c) && c in s.calls
    ensures Inv(Serve(s, w, l, c))
  {
    WorkerIsAtPendingCall(s, w);
    hide Inv;
    InvAt(s, c);
    LocalStepInv(s, Serve(s, w, l, c), l, c, w);
  }

  lemma CompleteInv(s: State, w: WorkerId, l: Line, c: CallId)
    requires Inv(s) && s.WorkerAt(w) == Answered(l, c) && c in s.calls
    ensures Inv(Complete(s, w, l, c))
  {
    WorkerIsAtPendingCall(s, w);
    hide Inv;
    InvAt(s, c);
    LocalStepInv(s, Complete(s, w, l, c), l, c, w);
  }

  lemma WorkerStepInv(s: State, w: WorkerId)
    requires Inv(s)
    ensures Inv(WorkerStep(s, w))
  {
    hide Inv, LoadBuffer, CheckStatus, Accept, Serve, Complete, PendingOk;
    var worker := s.WorkerAt(w);
    if !worker.Scanning? {
      WorkerIsAtPendingCall(s, w);
      match worker
      case Claimed(l) => LoadBufferInv(s, w, l);
      case Loaded(l, c) => CheckStatusInv(s, w, l, c);
      case Checked(l, c) => AcceptInv(s, w, l, c);
      case Serving(l, c) => ServeInv(s, w, l, c);
      case Answered(l, c) => CompleteInv(s, w, l, c);
    }
  }

  // ----- every run -----

  lemma StepInv(s: State, a: Action)
    requires Inv(s)
    ensures Inv(Step(s, a))
  {
    hide Inv, CallerStep, WorkerStep, Claim, Take;
    match a
    case Begin(c, fn, maxTries) =>
      if c !in s.calls {
        ReplaceCallInv(s, c, NewCall(fn, maxTries));
      }
    case NoWorkers(c) =>
      if c in s.calls && s.calls[c].pc.Idle? {
        InvAt(s, c);
        ReplaceCallInv(s, c, s.calls[c].(pc := Fallback));
      }
    case TakeLine(c, l) =>
      if c in s.calls && s.calls[c].pc.Alloc? {
        TakeInv(s, c, s.calls[c].pc.word, l);
      }
    case StepCaller(c) =>
      if c in s.calls {
        CallerStepInv(s, c);
      }
    case ClaimSignal(w, l) => ClaimInv(s, w, l);
    case StepWorker(w) => WorkerStepInv(s, w);
  }

  lemma {:induction false} RunInv(s: State, actions: seq<Action>)
    requires Inv(s)
    ensures Inv(Run(s, actions))
    decreases |actions|
  {
    if actions != [] {
      StepInv(s, actions[0]);
      RunInv(Step(s, actions[0]), actions[1..]);
    }
  }

  /** The states of all runs. */
  ghost predicate Reachable(s: State) {
    exists words: nat, table: Table, actions: seq<Action> :: s == Run(Initial(words, table), actions)
  }

  lemma ReachableInv(s: State)
    requires Reachable(s)
    ensures Inv(s)
  {
    var words: nat, table: Table, actions: seq<Action> :| s == Run(Initial(words, table), actions);
    InitialInv(words, table);
    RunInv(Initial(words, table), actions);
  }

  // ----- what the protocol promises -----

  /** A call that returned 0 was run by exactly one worker and has its result; one that
      returned -EAGAIN was run by none; a finished ECall was run exactly once, by a worker
      or by the fallback, and its answer is the function's. */
  lemma CallsRunExactlyOnce(s: State, c: CallId)
    requires Reachable(s) && c in s.calls
    ensures var call := s.calls[c];
            && (call.pc == Returned(Success) ==> call.byWorker == 1 && call.ret == Dispatch(s.table, call.fn))
            && (call.pc == Returned(Again) ==> call.byWorker == 0)
            && (call.pc.Finished? ==> call.byWorker + call.direct == 1
                                      && call.pc.answer == Dispatch(s.table, call.fn))
  {
    ReachableInv(s);
    InvAt(s, c);
  }

  /** No consistency check fails: not the caller's, not the worker's, and no worker
      follows a null buffer pointer. */
  lemma NoBug(s: State)
    requires Reachable(s)
    ensures !s.bug
  {
    ReachableInv(s);
  }

  ghost predicate Left(s: State, c: CallId) {
    c in s.calls && (s.calls[c].pc.Returned? || s.calls[c].pc.Fallback? || s.calls[c].pc.Finished?)
  }

  /** Whatever a worker reads or writes belongs to a call that has not returned. */
  lemma WorkersUseLiveBuffers(s: State, w: WorkerId)
    requires Reachable(s) && !s.WorkerAt(w).Scanning?
    ensures var l := s.WorkerAt(w).line;
            && l in s.bufs && s.bufs[l] in s.calls && !Left(s, s.bufs[l])
            && (!s.WorkerAt(w).Claimed? ==> s.WorkerAt(w).call == s.bufs[l])
            && (forall v | v != w && !s.WorkerAt(v).Scanning? :: s.WorkerAt(v).line != l)
  {
    ReachableInv(s);
    WorkerIsAtPendingCall(s, w);
    forall v | v != w && !s.WorkerAt(v).Scanning? ensures s.WorkerAt(v).line != s.WorkerAt(w).line {
      WorkerIsAtPendingCall(s, v);
    }
  }

  ghost predicate SameBuffer(before: Call, after: Call) {
    after.byWorker == before.byWorker && after.status == before.status && after.ret == before.ret
  }

  lemma CallerKeepsLeftBuffer(s: State, d: CallId, c: CallId)
    requires Left(s, c) && d in s.calls
    ensures Left(CallerStep(s, d), c) && SameBuffer(s.calls[c], CallerStep(s, d).calls[c])
  {
    if d != c {
      hide CallerStep;
      assert ChangesCall(s, CallerStep(s, d), d);
    } else {
      assert ChangesCall(s, CallerStep(s, d), d);
    }
  }

  lemma WorkerKeepsLeftBuffer(s: State, w: WorkerId, c: CallId)
    requires Inv(s) && Left(s, c)
    ensures Left(WorkerStep(s, w), c) && WorkerStep(s, w).calls[c] == s.calls[c]
  {
    if !s.WorkerAt(w).Scanning? {
      WorkerIsAtPendingCall(s, w);
      hide Inv;
    }
  }

  lemma StepKeepsLeftBuffer(s: State, a: Action, c: CallId)
    requires Inv(s) && Left(s, c)
    ensures Left(Step(s, a), c) && SameBuffer(s.calls[c], Step(s, a).calls[c])
  {
    hide Inv, CallerStep, WorkerStep;
    match a
    case StepCaller(d) =>
      if d in s.calls {
        CallerKeepsLeftBuffer(s, d, c);
      }
    case StepWorker(w) => WorkerKeepsLeftBuffer(s, w, c);
    case _ =>
  }

  /** Once a call has returned, no worker ever runs it or writes its buffer again: a call
      that fell back is never also run by a worker. */
  lemma {:induction false} ReturnedCallsAreNeverServed(s: State, actions: seq<Action>, c: CallId)
    requires Inv(s) && Left(s, c)
    ensures Left(Run(s, actions), c) && SameBuffer(s.calls[c], Run(s, actions).calls[c])
    decreases |actions|
  {
    if actions != [] {
      hide Step, Inv;
      StepKeepsLeftBuffer(s, actions[0], c);
      StepInv(s, actions[0]);
      ReturnedCallsAreNeverServed(Step(s, actions[0]), actions[1..], c);
    }
  }

  /** A set event bit belongs to a line that one call holds, whose buffer is published and
      SUBMITTED and whose caller is still in the protocol. */
  lemma SignalledLinesAreSubmitted(s: State, l: Line)
    requires Reachable(s) && l in s.event
    ensures l < s.NumLines() && l !in s.free && l in s.bufs && s.bufs[l] in s.calls
    ensures var call := s.calls[s.bufs[l]];
            call.status == Submitted && (call.pc.Spin? || call.pc.Revoke?) && call.pc.line == l
  {
    ReachableInv(s);
    InvLine(s, l);
  }

  ghost function InFlight(s: State): set<CallId> {
    set c | c in s.calls && s.calls[c].pc.Holds()
  }

  /** No line is held by two calls, and every line is either free or held: free lines and
      calls in flight add up to the number of lines. */
  lemma LinesAreConserved(s: State)
    requires Reachable(s)
    ensures forall c, d | c in InFlight(s) && d in InFlight(s) && c != d ::
              s.calls[c].pc.line != s.calls[d].pc.line
    ensures |s.free| + |InFlight(s)| == s.NumLines()
  {
    ReachableInv(s);
    HoldersAndOwners(s);
    FreeOrOwned(s);
    InjectiveSize(s.owner);
  }

  lemma HoldersAndOwners(s: State)
    requires Inv(s)
    ensures forall c | c in InFlight(s) :: s.calls[c].pc.line in s.owner && s.owner[s.calls[c].pc.line] == c
    ensures forall l | l in s.owner :: s.owner[l] in InFlight(s) && s.calls[s.owner[l]].pc.line == l
    ensures s.owner.Values == InFlight(s)
  {
    hide Inv;
    forall c | c in InFlight(s)
      ensures s.calls[c].pc.line in s.owner && s.owner[s.calls[c].pc.line] == c
    {
      InvAt(s, c);
    }
    forall l | l in s.owner
      ensures s.owner[l] in InFlight(s) && s.calls[s.owner[l]].pc.line == l
    {
      OwnerHolds(s, l);
    }
  }

  lemma OwnerHolds(s: State, l: Line)
    requires Inv(s) && l in s.owner
    ensures s.owner[l] in s.calls && s.calls[s.owner[l]].pc.Holds() && s.calls[s.owner[l]].pc.line == l
  {
    InvLine(s, l);
  }

  lemma FreeOrOwned(s: State)
    requires Inv(s)
    ensures |s.free| + |s.owner.Keys| == s.NumLines()
  {
    forall l: Line ensures l in s.free + s.owner.Keys <==> l < s.NumLines() {
      if l < s.NumLines() {
        assert LineOk(s, l);
      }
    }
    forall l: Line | l in s.free ensures l !in s.owner.Keys {
      assert LineOk(s, l);
    }
    assert s.free + s.owner.Keys == Lines(s.NumLines());
    assert s.free !! s.owner.Keys;
  }

  lemma {:induction false} InjectiveSize(m: map<Line, CallId>)
    requires forall k, l | k in m && l in m && k != l :: m[k] != m[l]
    ensures |m.Keys| == |m.Values|
    decreases m.Keys
  {
    if m.Keys != {} {
      var k :| k in m;
      var rest := m - {k};
      InjectiveSize(rest);
      assert rest.Keys == m.Keys - {k};
      forall v ensures v in rest.Values <==> v in m.Values - {m[k]} {
        if v in m.Values - {m[k]} {
          var l :| l in m && m[l] == v;
          assert l in rest && rest[l] == v;
        }
      }
      assert rest.Values == m.Values - {m[k]};
    }
  }
}
