/** The pool of trust threads of an enclave: free, not yet allocated, bound to an operating
    system thread, or kept for utility calls. */
module TcsPool {
  import opened Basics
  import opened NodeList

  datatype Mode = Bind | Unbind

  /** Trust threads are numbered; refs holds the reference count of each one that exists. */
  datatype State = State(
    mode: Mode, minPool: nat,
    free: seq<nat>, unallocated: seq<nat>, bound: seq<Item>, utility: Option<nat>,
    refs: map<nat, int>)

  // ----- the operations -----

  function Ref(s: State, t: nat): int {
    if t in s.refs then s.refs[t] else 0
  }

  /** A new trust thread; the first one of an enclave with dynamic threads serves utility calls. */
  function AddThread(s: State, t: nat, isUnallocated: bool, dynamic: bool): State {
    var s := s.(refs := s.refs[t := 0]);
    if isUnallocated then s.(unallocated := s.unallocated + [t])
    else if dynamic && s.utility.None? then s.(utility := Some(t))
    else s.(free := s.free + [t])
  }

  predicate IsBound(s: State, tid: nat) {
    IndexOf(s.bound, tid) < |s.bound|
  }

  function BoundThread(s: State, tid: nat): nat
    requires IsBound(s, tid)
  {
    s.bound[IndexOf(s.bound, tid)].value
  }

  function BindThread(s: State, tid: nat, t: nat): (State, bool) {
    if IsBound(s, tid) then (s, false) else (s.(bound := Inserted(s.bound, Item(tid, t))), true)
  }

  /** The thread goes back to the free ones with its references forgotten. */
  function UnbindThread(s: State, tid: nat): State {
    if !IsBound(s, tid) then s
    else
      var t := BoundThread(s, tid);
      s.(bound := Removed(s.bound, IndexOf(s.bound, tid)), free := s.free + [t], refs := s.refs[t := 0])
  }

  /** Unbind mode collects threads without references; bind mode those of exited threads. */
  predicate Goes(s: State, live: set<nat>, item: Item) {
    match s.mode
    case Unbind => Ref(s, item.value) == 0
    case Bind => item.key !in live
  }

  function Kept(s: State, live: set<nat>, list: seq<Item>): seq<Item> {
    if list == [] then []
    else
      var n := |list| - 1;
      if Goes(s, live, list[n]) then Kept(s, live, list[..n]) else Kept(s, live, list[..n]) + [list[n]]
  }

  function Freed(s: State, live: set<nat>, list: seq<Item>): seq<nat> {
    if list == [] then []
    else
      var n := |list| - 1;
      if Goes(s, live, list[n]) && Ref(s, list[n].value) == 0 then Freed(s, live, list[..n]) + [list[n].value]
      else Freed(s, live, list[..n])
  }

  /** Threads that left with references; they are deleted. */
  function Deleted(s: State, live: set<nat>, list: seq<Item>): seq<nat> {
    if list == [] then []
    else
      var n := |list| - 1;
      if Goes(s, live, list[n]) && Ref(s, list[n].value) != 0 then Deleted(s, live, list[..n]) + [list[n].value]
      else Deleted(s, live, list[..n])
  }

  function Elements(v: seq<nat>): set<nat> {
    set t | t in v
  }

  function Collect(s: State, live: set<nat>): State {
    s.(bound := Kept(s, live, s.bound),
       free := s.free + Freed(s, live, s.bound),
       refs := s.refs - Elements(Deleted(s, live, s.bound)))
  }

  /** What an attempt returns: the thread, if any, and whether binding it worked. */
  datatype Attempt = Attempt(s: State, thread: Option<nat>, bindOk: bool)

  function BindFree(s: State, tid: nat): Attempt
    requires s.free != []
  {
    var n := |s.free| - 1;
    var (s', ok) := BindThread(s.(free := s.free[..n]), tid, s.free[n]);
    Attempt(s', Some(s.free[n]), ok)
  }

  function TryAcquire(s: State, tid: nat, live: set<nat>): Attempt {
    if IsBound(s, tid) && s.utility != Some(BoundThread(s, tid)) then Attempt(s, Some(BoundThread(s, tid)), true)
    else if s.free != [] then BindFree(s, tid)
    else if Freed(s, live, s.bound) == [] then Attempt(Collect(s, live), None, true)
    else BindFree(Collect(s, live), tid)
  }

  function TakeUtility(s: State, tid: nat): Attempt
    requires s.utility.Some?
  {
    var (s', ok) := BindThread(UnbindThread(s, tid), tid, s.utility.value);
    Attempt(s'.(utility := None), s.utility, ok)
  }

  predicate NeedsNew(s: State) {
    && s.unallocated != []
    && !(s.minPool == 0 && |s.free| > s.minPool)
    && !(s.minPool != 0 && |s.free| >= s.minPool)
  }

  /** Making one more thread: made says whether the enclave call behind it succeeds. */
  function NewThread(s: State, made: bool): (State, bool) {
    if s.utility.None? then (s, false)
    else if s.unallocated == [] then (s, true)
    else if !made then (s, false)
    else
      var n := |s.unallocated| - 1;
      (s.(free := s.free + [s.unallocated[n]], unallocated := s.unallocated[..n]), true)
  }

  /** A fill pass in which the first count attempts succeed. */
  function Filled(s: State, count: nat): State
    decreases |s.unallocated|
  {
    if !NeedsNew(s) || s.utility.None? || count == 0 then s
    else Filled(NewThread(s, true).0, count - 1)
  }

  /** Acquiring for an ordinary call: without a thread the caller waits for the filler. */
  function AcquireOrdinary(s: State, tid: nat, live: set<nat>, made: nat): Attempt {
    var a := TryAcquire(s, tid, live);
    if a.thread.None? && a.s.utility.Some? then TryAcquire(Filled(a.s, made), tid, live) else a
  }

  /** Acquiring for initialisation, or for tearing down. */
  function AcquireSpecial(s: State, tid: nat, uninit: bool, live: set<nat>): Attempt {
    if s.utility.None? then TryAcquire(s, tid, live)
    else if uninit then TakeUtility(s, tid)
    else Attempt(s, s.utility, true)
  }

  function ResetAll(s: State, list: seq<Item>): State {
    if list == [] then s.(bound := [])
    else
      var n := |list| - 1;
      var r := ResetAll(s, list[..n]);
      r.(free := r.free + [list[n].value], refs := r.refs[list[n].value := 0])
  }

  function Reset(s: State): State {
    ResetAll(s, s.bound)
  }

  // ----- every thread is in one place -----

  ghost function Occurs(v: seq<nat>, t: nat): nat {
    if v == [] then 0 else Occurs(v[..|v| - 1], t) + if v[|v| - 1] == t then 1 else 0
  }

  ghost function Holds(list: seq<Item>, t: nat): nat {
    if list == [] then 0 else Holds(list[..|list| - 1], t) + if list[|list| - 1].value == t then 1 else 0
  }

  /** In how many places the thread is. */
  ghost function Places(s: State, t: nat): nat {
    Occurs(s.free, t) + Occurs(s.unallocated, t) + Holds(s.bound, t) + if s.utility == Some(t) then 1 else 0
  }

  /** A thread that exists is in exactly one place, and no other thread is anywhere. */
  ghost predicate Partition(s: State) {
    forall t :: Places(s, t) == if t in s.refs then 1 else 0
  }

  ghost predicate Inv(s: State) {
    Partition(s) && DistinctKeys(s.bound)
  }

  lemma OccursPush(v: seq<nat>, x: nat, t: nat)
    ensures Occurs(v + [x], t) == Occurs(v, t) + if x == t then 1 else 0
  {
    assert (v + [x])[..|v|] == v;
  }

  lemma {:induction false} OccursConcat(a: seq<nat>, b: seq<nat>, t: nat)
    ensures Occurs(a + b, t) == Occurs(a, t) + Occurs(b, t)
    decreases |b|
  {
    if b == [] {
      assert a + b == a;
    } else {
      OccursConcat(a, b[..|b| - 1], t);
      assert (a + b)[..|a + b| - 1] == a + b[..|b| - 1];
    }
  }

  lemma {:induction false} OccursIn(v: seq<nat>, t: nat)
    ensures t in v <==> Occurs(v, t) > 0
    decreases |v|
  {
    if v != [] {
      OccursIn(v[..|v| - 1], t);
      assert v == v[..|v| - 1] + [v[|v| - 1]];
    }
  }

  lemma {:induction false} HoldsConcat(a: seq<Item>, b: seq<Item>, t: nat)
    ensures Holds(a + b, t) == Holds(a, t) + Holds(b, t)
    decreases |b|
  {
    if b == [] {
      assert a + b == a;
    } else {
      HoldsConcat(a, b[..|b| - 1], t);
      assert (a + b)[..|a + b| - 1] == a + b[..|b| - 1];
    }
  }

  lemma HoldsOne(item: Item, t: nat)
    ensures Holds([item], t) == if item.value == t then 1 else 0
  {
    assert [item][..0] == [];
  }

  lemma HoldsInserted(list: seq<Item>, item: Item, t: nat)
    ensures Holds(Inserted(list, item), t) == Holds(list, t) + if item.value == t then 1 else 0
  {
    hide Holds;
    HoldsOne(item, t);
    if list == [] {
      HoldsConcat([], [item], t);
      assert [] + [item] == [item];
    } else {
      assert list == [list[0]] + list[1..];
      assert Inserted(list, item) == [list[0]] + ([item] + list[1..]);
      HoldsConcat([list[0]], list[1..], t);
      HoldsConcat([list[0]], [item] + list[1..], t);
      HoldsConcat([item], list[1..], t);
    }
  }

  lemma HoldsRemoved(list: seq<Item>, i: nat, t: nat)
    requires i < |list|
    ensures Holds(list, t) == Holds(Removed(list, i), t) + if list[i].value == t then 1 else 0
  {
    hide Holds;
    assert list == list[..i] + ([list[i]] + list[i + 1..]);
    HoldsConcat(list[..i], [list[i]] + list[i + 1..], t);
    HoldsConcat([list[i]], list[i + 1..], t);
    HoldsConcat(list[..i], list[i + 1..], t);
    HoldsOne(list[i], t);
  }

  lemma {:induction false} CollectSplits(s: State, live: set<nat>, list: seq<Item>, t: nat)
    ensures Holds(list, t)
         == Holds(Kept(s, live, list), t) + Occurs(Freed(s, live, list), t) + Occurs(Deleted(s, live, list), t)
    decreases |list|
  {
    hide Goes, Ref;
    if list != [] {
      var n := |list| - 1;
      var front := list[..n];
      CollectSplits(s, live, front, t);
      if !Goes(s, live, list[n]) {
        HoldsOne(list[n], t);
        HoldsConcat(Kept(s, live, front), [list[n]], t);
      } else if Ref(s, list[n].value) == 0 {
        OccursPush(Freed(s, live, front), list[n].value, t);
      } else {
        OccursPush(Deleted(s, live, front), list[n].value, t);
      }
    }
  }

  lemma {:induction false} KeptAreSome(s: State, live: set<nat>, list: seq<Item>, item: Item)
    ensures item in Kept(s, live, list) <==> item in list && !Goes(s, live, item)
    decreases |list|
  {
    hide Goes;
    if list != [] {
      var n := |list| - 1;
      assert list == list[..n] + [list[n]];
      KeptAreSome(s, live, list[..n], item);
    }
  }

  lemma {:induction false} KeptStaysDistinct(s: State, live: set<nat>, list: seq<Item>)
    requires DistinctKeys(list)
    ensures DistinctKeys(Kept(s, live, list))
    decreases |list|
  {
    hide Goes;
    if list != [] {
      var n := |list| - 1;
      var kept := Kept(s, live, list[..n]);
      KeptStaysDistinct(s, live, list[..n]);
      forall i | 0 <= i < |kept| ensures kept[i].key != list[n].key {
        KeptAreSome(s, live, list[..n], kept[i]);
        assert kept[i] in kept;
      }
    }
  }

  // ----- what each operation keeps -----

  lemma AddKeeps(s: State, t: nat, isUnallocated: bool, dynamic: bool)
    requires Inv(s) && t !in s.refs
    ensures Inv(AddThread(s, t, isUnallocated, dynamic))
  {
    hide Occurs, Holds;
    forall x: nat ensures Places(AddThread(s, t, isUnallocated, dynamic), x) == Places(s, x) + if x == t then 1 else 0 {
      OccursPush(s.free, t, x);
      OccursPush(s.unallocated, t, x);
      assert Places(s, x) == if x in s.refs then 1 else 0;
    }
  }

  lemma InOnePlace(s: State, i: nat)
    requires Inv(s) && i < |s.bound|
    ensures s.bound[i].value in s.refs && s.utility != Some(s.bound[i].value)
  {
    var t := s.bound[i].value;
    HoldsRemoved(s.bound, i, t);
    assert Places(s, t) == if t in s.refs then 1 else 0;
  }

  lemma UnbindKeeps(s: State, tid: nat)
    requires Inv(s)
    ensures Inv(UnbindThread(s, tid)) && !IsBound(UnbindThread(s, tid), tid)
    ensures UnbindThread(s, tid).refs.Keys == s.refs.Keys
  {
    hide Occurs, Holds;
    if IsBound(s, tid) {
      var i := IndexOf(s.bound, tid);
      RemoveKeepsDistinct(s.bound, i);
      InOnePlace(s, i);
      forall x: nat ensures Places(UnbindThread(s, tid), x) == Places(s, x) {
        HoldsRemoved(s.bound, i, x);
        OccursPush(s.free, s.bound[i].value, x);
      }
    }
  }

  lemma CollectKeeps(s: State, live: set<nat>)
    requires Inv(s)
    ensures Inv(Collect(s, live))
  {
    hide Occurs, Holds, Kept, Freed, Deleted;
    KeptStaysDistinct(s, live, s.bound);
    forall x: nat
      ensures Places(Collect(s, live), x) == if x in Collect(s, live).refs then 1 else 0
    {
      CollectSplits(s, live, s.bound, x);
      OccursConcat(s.free, Freed(s, live, s.bound), x);
      OccursIn(Deleted(s, live, s.bound), x);
      assert Places(s, x) == if x in s.refs then 1 else 0;
    }
  }

  lemma CollectKeepsUnbound(s: State, live: set<nat>, tid: nat)
    requires !IsBound(s, tid)
    ensures !IsBound(Collect(s, live), tid)
  {
    hide Kept, Freed, Deleted;
    var kept := Collect(s, live).bound;
    forall i | 0 <= i < |kept| ensures kept[i].key != tid {
      KeptAreSome(s, live, s.bound, kept[i]);
      assert kept[i] in kept;
    }
  }

  lemma BindFreeKeeps(s: State, tid: nat)
    requires Inv(s) && s.free != [] && !IsBound(s, tid)
    ensures BindFree(s, tid).bindOk && Inv(BindFree(s, tid).s)
    ensures BindFree(s, tid).thread.value in s.refs
  {
    hide Holds;
    var n := |s.free| - 1;
    var t := s.free[n];
    InsertKeepsDistinct(s.bound, Item(tid, t));
    forall x: nat ensures Places(BindFree(s, tid).s, x) == Places(s, x) {
      HoldsInserted(s.bound, Item(tid, t), x);
    }
    assert Places(s, t) == if t in s.refs then 1 else 0;
  }

  lemma TryKeeps(s: State, tid: nat, live: set<nat>)
    requires Inv(s)
    ensures Inv(TryAcquire(s, tid, live).s) && TryAcquire(s, tid, live).bindOk
    ensures TryAcquire(s, tid, live).thread.Some? ==>
              TryAcquire(s, tid, live).thread.value in TryAcquire(s, tid, live).s.refs
  {
    hide Inv, BindFree, Collect;
    if IsBound(s, tid) {
      InOnePlace(s, IndexOf(s.bound, tid));
    } else if s.free != [] {
      BindFreeKeeps(s, tid);
      BindFreeFrame(s, tid);
    } else {
      CollectKeeps(s, live);
      CollectKeepsUnbound(s, live, tid);
      CollectFrame(s, live);
      if Freed(s, live, s.bound) != [] {
        BindFreeKeeps(Collect(s, live), tid);
        BindFreeFrame(Collect(s, live), tid);
      }
    }
  }

  lemma BindFreeFrame(s: State, tid: nat)
    requires s.free != []
    ensures BindFree(s, tid).s.refs == s.refs && BindFree(s, tid).thread.Some?
  {
  }

  lemma CollectFrame(s: State, live: set<nat>)
    ensures Collect(s, live).free == s.free + Freed(s, live, s.bound)
    ensures Collect(s, live).utility == s.utility && Collect(s, live).mode == s.mode
    ensures Collect(s, live).unallocated == s.unallocated
  {
  }

  lemma NewKeeps(s: State, made: bool)
    requires Inv(s)
    ensures Inv(NewThread(s, made).0)
  {
    hide Holds;
    if s.unallocated != [] {
      forall x: nat ensures Places(NewThread(s, made).0, x) == Places(s, x) {
        OccursPush(s.free, s.unallocated[|s.unallocated| - 1], x);
      }
    }
  }

  lemma {:induction false} FillKeeps(s: State, count: nat)
    requires Inv(s)
    ensures Inv(Filled(s, count))
    ensures Filled(s, count).refs == s.refs && Filled(s, count).bound == s.bound
    ensures Filled(s, count).utility == s.utility
    decreases |s.unallocated|
  {
    hide Inv;
    if NeedsNew(s) && s.utility.Some? && count > 0 {
      NewKeeps(s, true);
      FillKeeps(NewThread(s, true).0, count - 1);
    }
  }

  /** A fill pass whose attempts succeed ends with as many free threads as the pool keeps ready,
      at least one, or with no thread left to allocate. */
  lemma {:induction false} FillReachesThePool(s: State, count: nat)
    requires s.utility.Some? && count >= |s.unallocated|
    ensures var r := Filled(s, count);
      r.unallocated == [] || |r.free| >= if s.minPool == 0 then 1 else s.minPool
    decreases |s.unallocated|
  {
    if NeedsNew(s) {
      FillReachesThePool(NewThread(s, true).0, count - 1);
    }
  }

  /** And it makes no thread beyond what the pool keeps ready. */
  lemma {:induction false} FillMakesNoMore(s: State, count: nat)
    ensures var r, ready := Filled(s, count), if s.minPool == 0 then 1 else s.minPool;
      && |r.free| + |r.unallocated| == |s.free| + |s.unallocated| && |s.free| <= |r.free|
      && (|r.free| > ready ==> r == s)
    decreases |s.unallocated|
  {
    if NeedsNew(s) && s.utility.Some? && count > 0 {
      FillMakesNoMore(NewThread(s, true).0, count - 1);
    }
  }

  lemma TakeUtilityKeeps(s: State, tid: nat)
    requires Inv(s) && s.utility.Some?
    ensures Inv(TakeUtility(s, tid).s) && TakeUtility(s, tid).bindOk
    ensures TakeUtility(s, tid).s.refs.Keys == s.refs.Keys && s.utility.value in s.refs
  {
    hide Occurs, Holds, UnbindThread;
    UnbindKeeps(s, tid);
    UnbindFrame(s, tid);
    var u := UnbindThread(s, tid);
    InsertKeepsDistinct(u.bound, Item(tid, s.utility.value));
    forall x: nat ensures Places(TakeUtility(s, tid).s, x) == Places(u, x) {
      HoldsInserted(u.bound, Item(tid, s.utility.value), x);
    }
    assert Places(s, s.utility.value) == if s.utility.value in s.refs then 1 else 0;
  }

  lemma UnbindFrame(s: State, tid: nat)
    ensures UnbindThread(s, tid).utility == s.utility
  {
  }

  lemma {:induction false} ResetKeeps(s: State, list: seq<Item>, t: nat)
    requires forall i | 0 <= i < |list| :: list[i].value in s.refs
    ensures ResetAll(s, list).bound == [] && ResetAll(s, list).unallocated == s.unallocated
    ensures ResetAll(s, list).utility == s.utility && ResetAll(s, list).refs.Keys == s.refs.Keys
    ensures Occurs(ResetAll(s, list).free, t) == Occurs(s.free, t) + Holds(list, t)
    ensures t in s.refs && Holds(list, t) == 0 ==> ResetAll(s, list).refs[t] == s.refs[t]
    ensures t in s.refs && Holds(list, t) > 0 ==> ResetAll(s, list).refs[t] == 0
    decreases |list|
  {
    if list != [] {
      var n := |list| - 1;
      ResetKeeps(s, list[..n], t);
      OccursPush(ResetAll(s, list[..n]).free, list[n].value, t);
    }
  }

  lemma ResetInv(s: State)
    requires Inv(s)
    ensures Inv(Reset(s)) && Reset(s).refs.Keys == s.refs.Keys
  {
    hide ResetAll, Occurs, Holds;
    forall i | 0 <= i < |s.bound| ensures s.bound[i].value in s.refs {
      InOnePlace(s, i);
    }
    ResetKeeps(s, s.bound, 0);
    NothingHeld();
    forall x: nat ensures Places(Reset(s), x) == Places(s, x) {
      ResetKeeps(s, s.bound, x);
    }
  }

  lemma NothingHeld()
    ensures forall t :: Holds([], t) == 0
  {
  }

  // ----- runs -----

  /** The pool with its past: how often each thread was acquired and not released, how many
      of those references a reset made it forget, and who acquired it last. */
  datatype History = History(s: State, held: map<nat, int>, lost: map<nat, int>, owner: map<nat, nat>)

  datatype Op =
    | Add(t: nat, isUnallocated: bool, dynamic: bool)
    | Ordinary(tid: nat, live: set<nat>, made: nat)
    | Special(tid: nat, uninit: bool, live: set<nat>)
    | Release(t: nat)
    | New(success: bool)
    | ResetPool

  ghost function Get(m: map<nat, int>, t: nat): int {
    if t in m then m[t] else 0
  }

  ghost predicate Enabled(h: History, op: Op) {
    match op
    case Add(t, _, _) => t !in h.s.refs
    case Release(t) => t in h.s.refs && Get(h.held, t) > 0
    case _ => true
  }

  function AddRef(s: State, t: nat, n: int): State {
    s.(refs := s.refs[t := Ref(s, t) + n])
  }

  ghost function Acquired(h: History, tid: nat, a: Attempt): History {
    if a.thread.None? then h.(s := a.s)
    else
      var t := a.thread.value;
      h.(s := AddRef(a.s, t, 1), held := h.held[t := Get(h.held, t) + 1], owner := h.owner[t := tid])
  }

  /** Every listed thread's references are forgotten. */
  ghost function Forget(h: History, list: seq<Item>): map<nat, int> {
    map t | t in h.s.refs.Keys + h.lost.Keys :: if Holds(list, t) > 0 then Get(h.held, t) else Get(h.lost, t)
  }

  ghost function UnboundBy(h: History, tid: nat): seq<Item> {
    if IsBound(h.s, tid) then [h.s.bound[IndexOf(h.s.bound, tid)]] else []
  }

  ghost function AcquiredSpecially(h: History, tid: nat, uninit: bool, live: set<nat>): History {
    var h' := if uninit && h.s.utility.Some? then h.(lost := Forget(h, UnboundBy(h, tid))) else h;
    Acquired(h', tid, AcquireSpecial(h.s, tid, uninit, live))
  }

  ghost function Step(h: History, op: Op): History {
    match op
    case Add(t, isUnallocated, dynamic) =>
      h.(s := AddThread(h.s, t, isUnallocated, dynamic), held := h.held[t := 0], lost := h.lost[t := 0])
    case Ordinary(tid, live, made) => Acquired(h, tid, AcquireOrdinary(h.s, tid, live, made))
    case Special(tid, uninit, live) => AcquiredSpecially(h, tid, uninit, live)
    case Release(t) => h.(s := AddRef(h.s, t, -1), held := h.held[t := Get(h.held, t) - 1])
    case New(success) => h.(s := NewThread(h.s, success).0)
    case ResetPool => h.(s := Reset(h.s), lost := Forget(h, h.s.bound))
  }

  ghost predicate Owned(h: History, t: nat) {
    h.s.utility == Some(t) || (t in h.owner && Item(h.owner[t], t) in h.s.bound)
  }

  ghost predicate Counted(h: History, t: nat) {
    && 0 <= Get(h.held, t) && 0 <= Get(h.lost, t)
    && Ref(h.s, t) == Get(h.held, t) - Get(h.lost, t)
    && (Get(h.held, t) > 0 && Get(h.lost, t) == 0 ==> Owned(h, t))
  }

  ghost predicate Consistent(h: History) {
    Inv(h.s) && forall t | t in h.s.refs :: Counted(h, t)
  }

  lemma CollectConsistent(h: History, live: set<nat>)
    requires Consistent(h)
    ensures Consistent(h.(s := Collect(h.s, live)))
  {
    hide Inv, Kept, Freed, Deleted;
    var h' := h.(s := Collect(h.s, live));
    CollectKeeps(h.s, live);
    forall t | t in h'.s.refs ensures Counted(h', t) {
      assert Counted(h, t);
      if Get(h.held, t) > 0 && Get(h.lost, t) == 0 && h.s.utility != Some(t) {
        var item := Item(h.owner[t], t);
        KeptAreSome(h.s, live, h.s.bound, item);
        if Goes(h.s, live, item) {
          DeletedIn(h.s, live, h.s.bound, item);
        }
      }
    }
  }

  lemma {:induction false} DeletedIn(s: State, live: set<nat>, list: seq<Item>, item: Item)
    requires item in list && Goes(s, live, item) && Ref(s, item.value) != 0
    ensures item.value in Deleted(s, live, list)
    decreases |list|
  {
    hide Goes, Ref;
    var n := |list| - 1;
    assert list == list[..n] + [list[n]];
    if item in list[..n] {
      DeletedIn(s, live, list[..n], item);
    }
  }

  lemma FillConsistent(h: History, count: nat)
    requires Consistent(h)
    ensures Consistent(h.(s := Filled(h.s, count)))
  {
    hide Inv, Filled;
    var h' := h.(s := Filled(h.s, count));
    FillKeeps(h.s, count);
    forall t | t in h'.s.refs ensures Counted(h', t) {
      assert Counted(h, t);
    }
  }

  /** Binding a free thread and counting the reference. */
  lemma BindConsistent(h: History, tid: nat)
    requires Consistent(h) && h.s.free != [] && !IsBound(h.s, tid)
    ensures Consistent(Acquired(h, tid, BindFree(h.s, tid)))
  {
    var a := BindFree(h.s, tid);
    var h' := Acquired(h, tid, a);
    BindFreeKeeps(h.s, tid);
    RefKeeps(a.s, a.thread.value, 1);
    forall t | t in h'.s.refs ensures Counted(h', t) {
      hide Inv;
      assert Counted(h, t);
      if t in h'.owner {
        InsertedHas(h.s.bound, Item(tid, a.thread.value), Item(h'.owner[t], t));
      }
    }
  }

  lemma RefKeeps(s: State, t: nat, n: int)
    requires Inv(s) && t in s.refs
    ensures Inv(AddRef(s, t, n))
  {
    forall x: nat ensures Places(AddRef(s, t, n), x) == Places(s, x) {
    }
  }

  /** Handing out a thread that is bound to the caller, or the utility thread. */
  lemma ShareConsistent(h: History, tid: nat, t: nat)
    requires Consistent(h) && t in h.s.refs && (Item(tid, t) in h.s.bound || h.s.utility == Some(t))
    ensures Consistent(Acquired(h, tid, Attempt(h.s, Some(t), true)))
  {
    var h' := Acquired(h, tid, Attempt(h.s, Some(t), true));
    RefKeeps(h.s, t, 1);
    forall x | x in h'.s.refs ensures Counted(h', x) {
      hide Inv;
      assert Counted(h, x);
    }
  }

  lemma TryConsistent(h: History, tid: nat, live: set<nat>)
    requires Consistent(h)
    ensures Consistent(Acquired(h, tid, TryAcquire(h.s, tid, live)))
  {
    hide Consistent, BindFree, Collect;
    ConsistentInv(h);
    if IsBound(h.s, tid) {
      var i := IndexOf(h.s.bound, tid);
      InOnePlace(h.s, i);
      assert h.s.bound[i] == Item(tid, h.s.bound[i].value);
      ShareConsistent(h, tid, h.s.bound[i].value);
    } else if h.s.free != [] {
      BindConsistent(h, tid);
    } else {
      var h' := h.(s := Collect(h.s, live));
      CollectConsistent(h, live);
      CollectKeepsUnbound(h.s, live, tid);
      CollectFrame(h.s, live);
      if Freed(h.s, live, h.s.bound) != [] {
        BindConsistent(h', tid);
        assert Acquired(h', tid, BindFree(h'.s, tid)) == Acquired(h, tid, BindFree(h'.s, tid)) by {
          BindFreeFrame(h'.s, tid);
        }
      }
    }
  }

  lemma ConsistentInv(h: History)
    requires Consistent(h)
    ensures Inv(h.s)
  {
  }

  lemma OrdinaryConsistent(h: History, tid: nat, live: set<nat>, made: nat)
    requires Consistent(h)
    ensures Consistent(Acquired(h, tid, AcquireOrdinary(h.s, tid, live, made)))
  {
    hide Consistent, TryAcquire, Filled;
    var a := TryAcquire(h.s, tid, live);
    TryConsistent(h, tid, live);
    if a.thread.None? && a.s.utility.Some? {
      var h' := Acquired(h, tid, a);
      FillConsistent(h', made);
      var h'' := h'.(s := Filled(a.s, made));
      TryConsistent(h'', tid, live);
      assert Acquired(h'', tid, TryAcquire(h''.s, tid, live)) == Acquired(h, tid, TryAcquire(h''.s, tid, live));
    }
  }

  lemma HoldsBound(list: seq<Item>, i: nat)
    requires i < |list|
    ensures Holds(list, list[i].value) > 0
  {
    HoldsRemoved(list, i, list[i].value);
  }

  lemma UnbindConsistent(h: History, tid: nat)
    requires Consistent(h)
    ensures Consistent(h.(s := UnbindThread(h.s, tid), lost := Forget(h, UnboundBy(h, tid))))
  {
    hide Inv, Holds;
    var h' := h.(s := UnbindThread(h.s, tid), lost := Forget(h, UnboundBy(h, tid)));
    UnbindKeeps(h.s, tid);
    NothingHeld();
    forall t | t in h'.s.refs ensures Counted(h', t) {
      assert Counted(h, t);
      if IsBound(h.s, tid) {
        var i := IndexOf(h.s.bound, tid);
        HoldsOne(h.s.bound[i], t);
        if t != h.s.bound[i].value && t in h.owner && Item(h.owner[t], t) in h.s.bound {
          RemovedHas(h.s.bound, i, Item(h.owner[t], t));
        }
      }
    }
  }

  lemma TakeConsistent(h: History, tid: nat)
    requires Consistent(h) && h.s.utility.Some?
    ensures Consistent(AcquiredSpecially(h, tid, true, {}))
  {
    hide Inv, UnbindThread, Forget;
    var u := h.s.utility.value;
    var h1 := h.(s := UnbindThread(h.s, tid), lost := Forget(h, UnboundBy(h, tid)));
    UnbindConsistent(h, tid);
    UnbindKeeps(h.s, tid);
    UnbindFrame(h.s, tid);
    TakeUtilityKeeps(h.s, tid);
    var a := TakeUtility(h.s, tid);
    var h' := AcquiredSpecially(h, tid, true, {});
    RefKeeps(a.s, u, 1);
    forall t | t in h'.s.refs ensures Counted(h', t) {
      assert Counted(h1, t);
      if t in h'.owner {
        InsertedHas(h1.s.bound, Item(tid, u), Item(h'.owner[t], t));
      }
    }
  }

  lemma SpecialConsistent(h: History, tid: nat, uninit: bool, live: set<nat>)
    requires Consistent(h)
    ensures Consistent(AcquiredSpecially(h, tid, uninit, live))
  {
    hide Consistent, TryAcquire, TakeUtility;
    if h.s.utility.None? {
      TryConsistent(h, tid, live);
    } else if uninit {
      TakeConsistent(h, tid);
    } else {
      UtilityExists(h);
      ShareConsistent(h, tid, h.s.utility.value);
    }
  }

  lemma UtilityExists(h: History)
    requires Consistent(h) && h.s.utility.Some?
    ensures h.s.utility.value in h.s.refs
  {
    assert Places(h.s, h.s.utility.value) == if h.s.utility.value in h.s.refs then 1 else 0;
  }

  lemma AddConsistent(h: History, t: nat, isUnallocated: bool, dynamic: bool)
    requires Consistent(h) && t !in h.s.refs
    ensures Consistent(Step(h, Add(t, isUnallocated, dynamic)))
  {
    hide Inv;
    var h' := Step(h, Add(t, isUnallocated, dynamic));
    AddKeeps(h.s, t, isUnallocated, dynamic);
    forall x | x in h'.s.refs ensures Counted(h', x) {
      assert x != t ==> Counted(h, x);
    }
  }

  lemma ReleaseConsistent(h: History, t: nat)
    requires Consistent(h) && t in h.s.refs && Get(h.held, t) > 0
    ensures Consistent(Step(h, Release(t)))
  {
    hide Inv;
    var h' := Step(h, Release(t));
    RefKeeps(h.s, t, -1);
    forall x | x in h'.s.refs ensures Counted(h', x) {
      assert Counted(h, x);
    }
  }

  lemma NewConsistent(h: History, success: bool)
    requires Consistent(h)
    ensures Consistent(Step(h, New(success)))
  {
    hide Inv;
    var h' := Step(h, New(success));
    NewKeeps(h.s, success);
    forall x | x in h'.s.refs ensures Counted(h', x) {
      assert Counted(h, x);
    }
  }

  lemma ResetConsistent(h: History)
    requires Consistent(h)
    ensures Consistent(Step(h, ResetPool))
  {
    hide Inv, ResetAll, Holds;
    var h' := Step(h, ResetPool);
    ResetInv(h.s);
    forall i | 0 <= i < |h.s.bound| ensures h.s.bound[i].value in h.s.refs {
      InOnePlace(h.s, i);
    }
    forall t | t in h'.s.refs ensures Counted(h', t) {
      assert Counted(h, t);
      ResetKeeps(h.s, h.s.bound, t);
      if t in h.owner && Item(h.owner[t], t) in h.s.bound {
        var i :| 0 <= i < |h.s.bound| && h.s.bound[i] == Item(h.owner[t], t);
        HoldsBound(h.s.bound, i);
      }
    }
  }

  lemma StepConsistent(h: History, op: Op)
    requires Consistent(h) && Enabled(h, op)
    ensures Consistent(Step(h, op))
  {
    hide Consistent;
    match op
    case Add(t, isUnallocated, dynamic) => AddConsistent(h, t, isUnallocated, dynamic);
    case Ordinary(tid, live, made) => OrdinaryConsistent(h, tid, live, made);
    case Special(tid, uninit, live) => SpecialConsistent(h, tid, uninit, live);
    case Release(t) => ReleaseConsistent(h, t);
    case New(success) => NewConsistent(h, success);
    case ResetPool => ResetConsistent(h);
  }

  ghost function Empty(mode: Mode, minPool: nat): History {
    History(State(mode, minPool, [], [], [], None, map[]), map[], map[], map[])
  }

  lemma EmptyIsConsistent(mode: Mode, minPool: nat)
    ensures Consistent(Empty(mode, minPool))
  {
    var h := Empty(mode, minPool);
    forall t: nat ensures Places(h.s, t) == 0 {
    }
  }

  ghost predicate RunsTo(h: History, ops: seq<Op>, last: History)
    decreases |ops|
  {
    if ops == [] then h == last
    else Enabled(h, ops[0]) && RunsTo(Step(h, ops[0]), ops[1..], last)
  }

  lemma {:induction false} RunConsistent(h: History, ops: seq<Op>, last: History)
    requires Consistent(h) && RunsTo(h, ops, last)
    ensures Consistent(last)
    decreases |ops|
  {
    hide Consistent, Step;
    if ops != [] {
      StepConsistent(h, ops[0]);
      RunConsistent(Step(h, ops[0]), ops[1..], last);
    }
  }

  /** In every state any sequence of operations leads to, each existing trust thread is in
      exactly one of the four places, bound keys are distinct, and a thread's count is its
      unreleased acquisitions less those a reset or a teardown made it forget. */
  lemma EveryRunIsConsistent(mode: Mode, minPool: nat, ops: seq<Op>, last: History)
    requires RunsTo(Empty(mode, minPool), ops, last)
    ensures Partition(last.s) && DistinctKeys(last.s.bound)
    ensures forall t | t in last.s.refs :: last.s.refs[t] == Get(last.held, t) - Get(last.lost, t)
  {
    EmptyIsConsistent(mode, minPool);
    RunConsistent(Empty(mode, minPool), ops, last);
    forall t | t in last.s.refs ensures last.s.refs[t] == Get(last.held, t) - Get(last.lost, t) {
      assert Counted(last, t);
    }
  }

  /** Collecting in unbind mode takes a bound thread exactly when all its unreleased
      acquisitions were forgotten, so it never takes one in use unless a reset or a teardown hit it. */
  lemma CollectionTakesUnused(h: History, live: set<nat>, item: Item)
    requires Consistent(h) && h.s.mode == Unbind && item in h.s.bound
    ensures item !in Collect(h.s, live).bound <==> Get(h.held, item.value) == Get(h.lost, item.value)
    ensures Deleted(h.s, live, h.s.bound) == []
  {
    hide Inv;
    KeptAreSome(h.s, live, h.s.bound, item);
    var i :| 0 <= i < |h.s.bound| && h.s.bound[i] == item;
    InOnePlace(h.s, i);
    assert Counted(h, item.value);
    NoneDeleted(h.s, live, h.s.bound);
  }

  lemma {:induction false} NoneDeleted(s: State, live: set<nat>, list: seq<Item>)
    requires s.mode == Unbind
    ensures Deleted(s, live, list) == []
    decreases |list|
  {
    if list != [] {
      NoneDeleted(s, live, list[..|list| - 1]);
    }
  }

  lemma {:induction false} FreedHadNoReferences(s: State, live: set<nat>, list: seq<Item>, t: nat)
    requires t in Freed(s, live, list)
    ensures Ref(s, t) == 0
    decreases |list|
  {
    hide Goes, Ref;
    if t in Freed(s, live, list[..|list| - 1]) {
      FreedHadNoReferences(s, live, list[..|list| - 1], t);
    }
  }

  lemma BoundOnce(s: State, i: nat, j: nat)
    requires Inv(s) && i < |s.bound| && j < |s.bound| && s.bound[i].value == s.bound[j].value
    ensures i == j
  {
    var t := s.bound[i].value;
    HoldsRemoved(s.bound, i, t);
    assert Places(s, t) <= 1;
    if i != j {
      RemovedHas(s.bound, i, s.bound[j]) by {
        assert s.bound[i].key != s.bound[j].key;
      }
      var k :| 0 <= k < |Removed(s.bound, i)| && Removed(s.bound, i)[k] == s.bound[j];
      HoldsBound(Removed(s.bound, i), k);
    }
  }

  /** A bound thread is not free. */
  lemma BoundIsNotFree(s: State, item: Item)
    requires Inv(s) && item in s.bound
    ensures item.value !in s.free
  {
    var i :| 0 <= i < |s.bound| && s.bound[i] == item;
    HoldsBound(s.bound, i);
    OccursIn(s.free, item.value);
    assert Places(s, item.value) <= 1;
  }

  ghost predicate InUse(h: History, t: nat) {
    t in h.s.refs && Get(h.held, t) > 0 && Get(h.lost, t) == 0 && h.s.utility != Some(t)
  }

  lemma OwnerOf(h: History, t: nat)
    requires Consistent(h) && InUse(h, t)
    ensures t in h.owner && Item(h.owner[t], t) in h.s.bound && Ref(h.s, t) > 0 && t !in h.s.free
  {
    assert Counted(h, t);
    BoundIsNotFree(h.s, Item(h.owner[t], t));
  }

  lemma TryIsExclusive(h: History, tid: nat, live: set<nat>, t: nat)
    requires Consistent(h) && InUse(h, t) && TryAcquire(h.s, tid, live).thread == Some(t)
    ensures t in h.owner && h.owner[t] == tid
  {
    hide Inv, Kept, Freed, Deleted;
    OwnerOf(h, t);
    if IsBound(h.s, tid) && h.s.utility != Some(BoundThread(h.s, tid)) {
      var i := IndexOf(h.s.bound, tid);
      var j :| 0 <= j < |h.s.bound| && h.s.bound[j] == Item(h.owner[t], t);
      BoundOnce(h.s, i, j);
    } else if h.s.free == [] {
      var f := Freed(h.s, live, h.s.bound);
      assert t in f;
      FreedHadNoReferences(h.s, live, h.s.bound, t);
      assert false;
    } else {
      assert false;
    }
  }

  lemma TryAddsNoThread(s: State, tid: nat, live: set<nat>)
    ensures TryAcquire(s, tid, live).s.refs.Keys <= s.refs.Keys
    ensures TryAcquire(s, tid, live).thread.None? ==> TryAcquire(s, tid, live).s == Collect(s, live)
  {
  }

  lemma OrdinaryIsExclusive(h: History, tid: nat, live: set<nat>, made: nat, t: nat)
    requires Consistent(h) && InUse(h, t) && AcquireOrdinary(h.s, tid, live, made).thread == Some(t)
    ensures t in h.owner && h.owner[t] == tid
  {
    hide Consistent, TryAcquire, Filled, Collect;
    var a := TryAcquire(h.s, tid, live);
    if a.thread.None? && a.s.utility.Some? {
      var h' := h.(s := a.s);
      TryAddsNoThread(h.s, tid, live);
      CollectConsistent(h, live);
      CollectFrame(h.s, live);
      ConsistentInv(h');
      FillKeeps(a.s, made);
      FillConsistent(h', made);
      var h'' := h'.(s := Filled(a.s, made));
      ConsistentInv(h'');
      TryKeeps(h''.s, tid, live);
      TryAddsNoThread(h''.s, tid, live);
      TryIsExclusive(h'', tid, live, t);
    } else {
      TryIsExclusive(h, tid, live, t);
    }
  }

  /** What an acquiring operation returns. */
  function AttemptBy(s: State, op: Op): Attempt
    requires op.Ordinary? || op.Special?
  {
    match op
    case Ordinary(tid, live, made) => AcquireOrdinary(s, tid, live, made)
    case Special(tid, uninit, live) => AcquireSpecial(s, tid, uninit, live)
  }

  /** A thread in use, the utility thread aside, is only handed to the operating system thread
      that has it, whatever the call is for. */
  lemma AcquisitionIsExclusive(h: History, op: Op, t: nat)
    requires Consistent(h) && InUse(h, t)
    requires (op.Ordinary? || op.Special?) && AttemptBy(h.s, op).thread == Some(t)
    ensures t in h.owner && h.owner[t] == op.tid
  {
    hide Consistent, TryAcquire, AcquireOrdinary;
    match op
    case Ordinary(tid, live, made) => OrdinaryIsExclusive(h, tid, live, made, t);
    case Special(tid, uninit, live) => TryIsExclusive(h, tid, live, t);
  }

  // ----- who gets a thread -----

  /** Collection frees the thread: nothing refers to it, and in bind mode the operating system
      thread it is bound to has exited. */
  ghost predicate Idle(s: State, live: set<nat>, item: Item) {
    Ref(s, item.value) == 0 && (s.mode == Bind ==> item.key !in live)
  }

  lemma {:induction false} FreedAreIdle(s: State, live: set<nat>, list: seq<Item>, t: nat)
    ensures t in Freed(s, live, list) <==> exists i :: 0 <= i < |list| && list[i].value == t && Idle(s, live, list[i])
    decreases |list|
  {
    if list != [] {
      var n := |list| - 1;
      var front, last := list[..n], list[n];
      FreedAreIdle(s, live, front, t);
      assert Idle(s, live, last) <==> Goes(s, live, last) && Ref(s, last.value) == 0;
      hide Idle, Goes, Ref;
      assert forall i | 0 <= i < n :: list[i] == front[i];
      assert t in Freed(s, live, list) <==> t in Freed(s, live, front) || (last.value == t && Idle(s, live, last));
    }
  }

  lemma NoneFreedIff(s: State, live: set<nat>, list: seq<Item>)
    ensures Freed(s, live, list) == [] <==> forall i | 0 <= i < |list| :: !Idle(s, live, list[i])
  {
    hide Freed, Idle;
    if Freed(s, live, list) == [] {
      forall i | 0 <= i < |list| ensures !Idle(s, live, list[i]) {
        FreedAreIdle(s, live, list, list[i].value);
      }
    } else {
      var t := Freed(s, live, list)[0];
      FreedAreIdle(s, live, list, t);
    }
  }

  /** The caller has no thread, none is free and collection would free none. */
  ghost predicate Exhausted(s: State, tid: nat, live: set<nat>) {
    && s.free == []
    && forall i | 0 <= i < |s.bound| :: s.bound[i].key != tid && !Idle(s, live, s.bound[i])
  }

  lemma BoundIff(s: State, tid: nat)
    ensures IsBound(s, tid) <==> exists i :: 0 <= i < |s.bound| && s.bound[i].key == tid
  {
  }

  /** An attempt gets no thread exactly when the pool is exhausted for the caller. */
  lemma NoneIffExhausted(s: State, tid: nat, live: set<nat>)
    requires Inv(s)
    ensures TryAcquire(s, tid, live).thread.None? <==> Exhausted(s, tid, live)
  {
    hide Inv, Idle, Freed, Collect;
    BoundIff(s, tid);
    NoneFreedIff(s, live, s.bound);
    CollectFrame(s, live);
    if IsBound(s, tid) {
      InOnePlace(s, IndexOf(s.bound, tid));
    }
  }

  lemma BindFreeGets(s: State, tid: nat)
    requires s.free != [] && !IsBound(s, tid)
    ensures var t := s.free[|s.free| - 1];
      && BindFree(s, tid).thread == Some(t)
      && forall x :: x in BindFree(s, tid).s.bound <==> x in s.bound || x == Item(tid, t)
  {
    forall x {
      InsertedHas(s.bound, Item(tid, s.free[|s.free| - 1]), x);
    }
  }

  /** A thread that an attempt gives is then bound to the caller. It was so before, or was free,
      or was idle with none free; and no binding of another is given up that collection does
      not take. */
  lemma AttemptGives(s: State, tid: nat, live: set<nat>, t: nat)
    requires Inv(s) && TryAcquire(s, tid, live).thread == Some(t)
    ensures Item(tid, t) in TryAcquire(s, tid, live).s.bound
    ensures IsBound(s, tid) ==> Item(tid, t) in s.bound && TryAcquire(s, tid, live).s == s
    ensures !IsBound(s, tid) ==>
              || t in s.free
              || (s.free == []
                  && exists i :: 0 <= i < |s.bound| && s.bound[i].value == t && Idle(s, live, s.bound[i]))
    ensures forall x | x in s.bound && (s.free != [] || !Goes(s, live, x)) :: x in TryAcquire(s, tid, live).s.bound
  {
    hide Inv, Idle, Freed, Goes, BindFree, Kept, Deleted;
    if IsBound(s, tid) {
      InOnePlace(s, IndexOf(s.bound, tid));
    } else if s.free != [] {
      BindFreeGets(s, tid);
    } else {
      var c := Collect(s, live);
      CollectKeepsUnbound(s, live, tid);
      BindFreeGets(c, tid);
      FreedAreIdle(s, live, s.bound, t);
      forall x | x in s.bound && !Goes(s, live, x) ensures x in c.bound {
        KeptAreSome(s, live, s.bound, x);
      }
    }
  }

  lemma {:induction false} FillFrame(s: State, count: nat)
    ensures Filled(s, count).mode == s.mode && Filled(s, count).bound == s.bound && Filled(s, count).refs == s.refs
    ensures Filled(s, count).free == [] <==> s.free == [] && (s.unallocated == [] || s.utility.None? || count == 0)
    decreases |s.unallocated|
  {
    if NeedsNew(s) && s.utility.Some? && count > 0 {
      FillFrame(NewThread(s, true).0, count - 1);
    }
  }

  /** Collecting again takes nothing more. */
  lemma StaysExhausted(s: State, tid: nat, live: set<nat>)
    requires Inv(s) && Exhausted(s, tid, live)
    ensures var c := Collect(s, live);
      c.free == [] && forall i | 0 <= i < |c.bound| :: c.bound[i].key != tid && !Idle(c, live, c.bound[i])
  {
    hide Inv, Freed, Kept;
    var c := Collect(s, live);
    NoneFreedIff(s, live, s.bound);
    if s.mode == Unbind {
      NoneDeleted(s, live, s.bound);
      assert c.refs == s.refs;
    }
    hide Deleted;
    forall i | 0 <= i < |c.bound| ensures c.bound[i].key != tid && !Idle(c, live, c.bound[i]) {
      assert c.bound[i] in c.bound;
      KeptAreSome(s, live, s.bound, c.bound[i]);
      var j :| 0 <= j < |s.bound| && s.bound[j] == c.bound[i];
    }
  }

  /** An ordinary call gets no thread exactly when the pool is exhausted for the caller and the
      filler makes none: there is no utility thread, no thread left to make, or making fails. */
  lemma OrdinaryFailsIff(s: State, tid: nat, live: set<nat>, made: nat)
    requires Inv(s)
    ensures AcquireOrdinary(s, tid, live, made).thread.None?
       <==> Exhausted(s, tid, live) && (s.utility.None? || s.unallocated == [] || made == 0)
  {
    hide Inv, TryAcquire, Filled, Collect, Exhausted;
    NoneIffExhausted(s, tid, live);
    TryAddsNoThread(s, tid, live);
    CollectFrame(s, live);
    if Exhausted(s, tid, live) {
      var c := Collect(s, live);
      var f := Filled(c, made);
      CollectKeeps(s, live);
      StaysExhausted(s, tid, live);
      FillFrame(c, made);
      FillKeeps(c, made);
      NoneIffExhausted(f, tid, live);
      SameExhausted(c, f, tid, live);
    }
  }

  lemma SameExhausted(s: State, s': State, tid: nat, live: set<nat>)
    requires s'.mode == s.mode && s'.bound == s.bound && s'.refs == s.refs
    requires forall i | 0 <= i < |s.bound| :: s.bound[i].key != tid && !Idle(s, live, s.bound[i])
    ensures Exhausted(s', tid, live) <==> s'.free == []
  {
    forall i | 0 <= i < |s.bound| ensures !Idle(s', live, s.bound[i]) {
      assert !Idle(s, live, s.bound[i]);
    }
  }

  /** With a utility thread an initialising call shares it. A teardown takes it over: it is
      bound to the caller, is the utility thread no more, and the thread the caller had is free
      without references. */
  lemma SpecialGetsUtility(s: State, tid: nat, uninit: bool, live: set<nat>)
    requires Inv(s) && s.utility.Some?
    ensures var a := AcquireSpecial(s, tid, uninit, live);
      && a.thread == s.utility
      && (!uninit ==> a.s == s)
      && (uninit ==> a.s.utility.None? && Item(tid, s.utility.value) in a.s.bound)
      && (uninit && IsBound(s, tid) ==> BoundThread(s, tid) in a.s.free && Ref(a.s, BoundThread(s, tid)) == 0)
  {
    hide Inv;
    if uninit {
      UnbindKeeps(s, tid);
      var u := UnbindThread(s, tid);
      InsertedHas(u.bound, Item(tid, s.utility.value), Item(tid, s.utility.value));
    }
  }

  lemma UnallocatedIsElsewhere(s: State, t: nat)
    requires Inv(s) && t in s.unallocated
    ensures t !in s.free && forall i | 0 <= i < |s.bound| :: s.bound[i].value != t
  {
    OccursIn(s.unallocated, t);
    OccursIn(s.free, t);
    assert Places(s, t) <= 1;
    forall i | 0 <= i < |s.bound| ensures s.bound[i].value != t {
      HoldsBound(s.bound, i);
    }
  }

  lemma FreeIsTaken(s: State, tid: nat, live: set<nat>)
    requires !IsBound(s, tid) && s.free != []
    ensures TryAcquire(s, tid, live).thread == Some(s.free[|s.free| - 1])
  {
  }

  lemma UnallocatedWaits(s: State, t: nat, tid: nat, live: set<nat>)
    requires Inv(s) && t in s.unallocated
    ensures TryAcquire(s, tid, live).thread != Some(t)
  {
    hide Inv, TryAcquire, Idle, Goes;
    UnallocatedIsElsewhere(s, t);
    if TryAcquire(s, tid, live).thread.Some? {
      var x := TryAcquire(s, tid, live).thread.value;
      AttemptGives(s, tid, live, x);
      if IsBound(s, tid) {
        var i :| 0 <= i < |s.bound| && s.bound[i] == Item(tid, x);
      }
    }
  }

  /** A new thread serves the next call. One to be made later serves none before it is made, and
      then the next; the first of an enclave with dynamic threads serves utility calls. */
  lemma NewThreadServes(s: State, t: nat, tid: nat, live: set<nat>)
    requires Inv(s) && t !in s.refs && !IsBound(s, tid)
    ensures TryAcquire(AddThread(s, t, false, false), tid, live).thread == Some(t)
    ensures TryAcquire(AddThread(s, t, true, false), tid, live).thread != Some(t)
    ensures s.utility.Some? ==>
              TryAcquire(NewThread(AddThread(s, t, true, false), true).0, tid, live).thread == Some(t)
    ensures s.utility.None? ==> AddThread(s, t, false, true).utility == Some(t)
  {
    hide TryAcquire, Inv;
    AddKeeps(s, t, true, false);
    UnallocatedWaits(AddThread(s, t, true, false), t, tid, live);
    FreeIsTaken(AddThread(s, t, false, false), tid, live);
    if s.utility.Some? {
      FreeIsTaken(NewThread(AddThread(s, t, true, false), true).0, tid, live);
    }
  }

  // ----- when references are forgotten -----

  /** Every count is the unreleased acquisitions, and a thread in use is bound to who has it. */
  ghost predicate Sound(h: History) {
    forall t | t in h.s.refs ::
      h.s.refs[t] == Get(h.held, t) && (Get(h.held, t) > 0 ==> Owned(h, t))
  }

  /** The operation unbinds a thread that is in use: a reset of the pool, or a teardown by an
      operating system thread that still has one, from inside a call out. */
  ghost predicate Forgets(h: History, op: Op) {
    match op
    case ResetPool => exists i :: 0 <= i < |h.s.bound| && Get(h.held, h.s.bound[i].value) > 0
    case Special(tid, uninit, _) =>
      uninit && h.s.utility.Some? && IsBound(h.s, tid) && Get(h.held, BoundThread(h.s, tid)) > 0
    case _ => false
  }

  ghost predicate NothingLost(h: History) {
    forall t :: Get(h.lost, t) == 0
  }

  lemma SoundIfNothingLost(h: History)
    requires Consistent(h) && NothingLost(h)
    ensures Sound(h)
  {
    hide Inv;
    forall t | t in h.s.refs ensures h.s.refs[t] == Get(h.held, t) && (Get(h.held, t) > 0 ==> Owned(h, t)) {
      assert Counted(h, t) && Get(h.lost, t) == 0;
    }
  }

  lemma {:induction false} HoldsSome(list: seq<Item>, t: nat)
    requires Holds(list, t) > 0
    ensures exists i :: 0 <= i < |list| && list[i].value == t
    decreases |list|
  {
    if list[|list| - 1].value != t {
      HoldsSome(list[..|list| - 1], t);
      var i :| 0 <= i < |list| - 1 && list[..|list| - 1][i].value == t;
      assert list[i].value == t;
    }
  }

  /** Forgetting threads that nobody has loses nothing. */
  lemma ForgetUnused(h: History, list: seq<Item>)
    requires NothingLost(h) && forall i | 0 <= i < |list| :: Get(h.held, list[i].value) == 0
    ensures forall t :: Get(Forget(h, list), t) == 0
  {
    hide Holds;
    forall t: nat ensures Get(Forget(h, list), t) == 0 {
      assert Get(h.lost, t) == 0;
      if Holds(list, t) > 0 {
        HoldsSome(list, t);
      }
    }
  }

  lemma BoundCounts(h: History, i: nat)
    requires Consistent(h) && i < |h.s.bound|
    ensures h.s.bound[i].value in h.s.refs && Get(h.held, h.s.bound[i].value) >= 0
  {
    hide Inv;
    InOnePlace(h.s, i);
    assert Counted(h, h.s.bound[i].value);
  }

  lemma NothingLostStays(h: History, op: Op)
    requires Consistent(h) && NothingLost(h) && !Forgets(h, op)
    ensures NothingLost(Step(h, op))
  {
    hide Consistent, Forget, AcquireOrdinary, AcquireSpecial, Reset, AddThread;
    match op
    case ResetPool =>
      forall i | 0 <= i < |h.s.bound| ensures Get(h.held, h.s.bound[i].value) == 0 {
        BoundCounts(h, i);
      }
      ForgetUnused(h, h.s.bound);
    case Special(tid, uninit, live) =>
      if uninit && h.s.utility.Some? {
        if IsBound(h.s, tid) {
          BoundCounts(h, IndexOf(h.s.bound, tid));
        }
        ForgetUnused(h, UnboundBy(h, tid));
      }
    case Add(t, _, _) =>
      var after := h.lost[t := 0];
      forall x: nat ensures Get(after, x) == 0 {
        assert Get(h.lost, x) == 0;
      }
    case Ordinary(_, _, _) =>
    case Release(_) =>
    case New(_) =>
  }

  lemma ForgottenIsLost(h: History, list: seq<Item>, i: nat)
    requires i < |list| && list[i].value in h.s.refs && Get(h.held, list[i].value) > 0
    ensures Get(Forget(h, list), list[i].value) == Get(h.held, list[i].value)
  {
    HoldsBound(list, i);
  }

  lemma LostIsUnsound(h: History, t: nat)
    requires Consistent(h) && t in h.s.refs && Get(h.lost, t) != 0
    ensures !Sound(h)
  {
    hide Inv;
    assert Counted(h, t);
  }

  lemma ForgettingIsUnsound(h: History, op: Op)
    requires Consistent(h) && Enabled(h, op) && Forgets(h, op)
    ensures !Sound(Step(h, op))
  {
    hide Consistent, Sound, Forget, TakeUtility, ResetAll;
    StepConsistent(h, op);
    ConsistentInv(h);
    match op
    case ResetPool =>
      var i :| 0 <= i < |h.s.bound| && Get(h.held, h.s.bound[i].value) > 0;
      BoundCounts(h, i);
      ForgottenIsLost(h, h.s.bound, i);
      ResetInv(h.s);
      LostIsUnsound(Step(h, op), h.s.bound[i].value);
    case Special(tid, _, _) =>
      var i := IndexOf(h.s.bound, tid);
      BoundCounts(h, i);
      ForgottenIsLost(h, UnboundBy(h, tid), 0);
      TakeUtilityKeeps(h.s, tid);
      LostIsUnsound(Step(h, op), h.s.bound[i].value);
  }

  ghost predicate AlwaysSound(h: History, ops: seq<Op>)
    decreases |ops|
  {
    Sound(h) && (ops != [] ==> AlwaysSound(Step(h, ops[0]), ops[1..]))
  }

  ghost predicate NeverForgets(h: History, ops: seq<Op>)
    decreases |ops|
  {
    ops == [] || (!Forgets(h, ops[0]) && NeverForgets(Step(h, ops[0]), ops[1..]))
  }

  lemma {:induction false} SoundIff(h: History, ops: seq<Op>, last: History)
    requires Consistent(h) && NothingLost(h) && RunsTo(h, ops, last)
    ensures AlwaysSound(h, ops) <==> NeverForgets(h, ops)
    decreases |ops|
  {
    hide Consistent, Sound, Step, Forgets, NothingLost;
    SoundIfNothingLost(h);
    if ops != [] {
      StepConsistent(h, ops[0]);
      if Forgets(h, ops[0]) {
        ForgettingIsUnsound(h, ops[0]);
      } else {
        NothingLostStays(h, ops[0]);
        SoundIff(Step(h, ops[0]), ops[1..], last);
      }
    }
  }

  /** For every run: counts are right and threads in use are bound to who has them throughout,
      if and only if no operation of the run unbinds a thread that is in use. */
  lemma SoundIffNeverForgets(mode: Mode, minPool: nat, ops: seq<Op>, last: History)
    requires RunsTo(Empty(mode, minPool), ops, last)
    ensures AlwaysSound(Empty(mode, minPool), ops) <==> NeverForgets(Empty(mode, minPool), ops)
  {
    hide Sound, RunsTo;
    EmptyIsConsistent(mode, minPool);
    SoundIff(Empty(mode, minPool), ops, last);
  }

  // ----- a teardown from inside a call out -----

  /** An enclave with a utility thread 0 and a thread 1; caller 1 acquires thread 1, and from
      inside a call out tears the enclave down. */
  ghost function Teardown(n: nat): History {
    if n == 1 then History(State(Unbind, 0, [], [], [], Some(0), map[0 := 0]), map[0 := 0], map[0 := 0], map[])
    else if n == 2 then
      History(State(Unbind, 0, [1], [], [], Some(0), map[0 := 0, 1 := 0]),
              map[0 := 0, 1 := 0], map[0 := 0, 1 := 0], map[])
    else if n == 3 then
      History(State(Unbind, 0, [], [], [Item(1, 1)], Some(0), map[0 := 0, 1 := 1]),
              map[0 := 0, 1 := 1], map[0 := 0, 1 := 0], map[1 := 1])
    else
      History(State(Unbind, 0, [1], [], [Item(1, 0)], None, map[0 := 1, 1 := 0]),
              map[0 := 1, 1 := 1], map[0 := 0, 1 := 1], map[0 := 1, 1 := 1])
  }

  lemma TeardownStarts()
    ensures Step(Empty(Unbind, 0), Add(0, false, true)) == Teardown(1)
    ensures Step(Teardown(1), Add(1, false, true)) == Teardown(2)
    ensures Step(Teardown(2), Ordinary(1, {1, 2}, 0)) == Teardown(3)
  {
    assert [1][..0] == [];
  }

  lemma TeardownForgets()
    ensures Forget(Teardown(3), UnboundBy(Teardown(3), 1)) == map[0 := 0, 1 := 1]
  {
    var list := [Item(1, 1)];
    assert list[..0] == [];
    assert Holds(list, 1) == 1 && Holds(list, 0) == 0;
    assert UnboundBy(Teardown(3), 1) == list;
  }

  lemma TeardownTakes()
    ensures TakeUtility(Teardown(3).s, 1)
         == Attempt(State(Unbind, 0, [1], [], [Item(1, 0)], None, map[0 := 0, 1 := 0]), Some(0), true)
  {
    var s := Teardown(3).s;
    var u := State(Unbind, 0, [1], [], [], Some(0), map[0 := 0, 1 := 0]);
    assert UnbindThread(s, 1) == u;
    assert !IsBound(u, 1);
    assert Inserted(u.bound, Item(1, 0)) == [Item(1, 0)];
  }

  lemma TeardownEnds()
    ensures Step(Teardown(3), Special(1, true, {1, 2})) == Teardown(4)
  {
    TeardownForgets();
    TeardownTakes();
    hide Forget, UnboundBy, TakeUtility;
    var h := Teardown(3);
    assert AcquireSpecial(h.s, 1, true, {1, 2}) == TakeUtility(h.s, 1);
  }

  ghost function TeardownOps(): seq<Op> {
    [Add(0, false, true), Add(1, false, true), Ordinary(1, {1, 2}, 0), Special(1, true, {1, 2})]
  }

  /** Caller 1 still has thread 1, yet caller 2 gets it straight from the free ones. */
  lemma TeardownHandsOutThread()
    ensures RunsTo(Empty(Unbind, 0), TeardownOps(), Teardown(4)) && !NeverForgets(Empty(Unbind, 0), TeardownOps())
    ensures Get(Teardown(4).held, 1) > 0 && Teardown(4).owner[1] == 1
    ensures AcquireOrdinary(Teardown(4).s, 2, {1, 2}, 0).thread == Some(1)
  {
    TeardownStarts();
    TeardownEnds();
    hide Step, AcquireOrdinary;
    var a, b, c, d := Add(0, false, true), Add(1, false, true), Ordinary(1, {1, 2}, 0), Special(1, true, {1, 2});
    var ops := TeardownOps();
    assert ops[1..] == [b, c, d] && [b, c, d][1..] == [c, d] && [c, d][1..] == [d] && [d][1..] == [];
    assert RunsTo(Teardown(3), [d], Teardown(4)) && !NeverForgets(Teardown(3), [d]);
    assert RunsTo(Teardown(2), [c, d], Teardown(4)) && !NeverForgets(Teardown(2), [c, d]);
    assert RunsTo(Teardown(1), [b, c, d], Teardown(4)) && !NeverForgets(Teardown(1), [b, c, d]);
    SecondCaller();
  }

  lemma SecondCaller()
    ensures AcquireOrdinary(Teardown(4).s, 2, {1, 2}, 0).thread == Some(1)
  {
    var s := Teardown(4).s;
    assert !IsBound(s, 2) && s.free == [1];
  }
}
