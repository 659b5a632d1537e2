/** The thread pool as it is updated in place, against the operations of TcsPool. */
module ThreadPool {
  import opened Basics
  import opened NodeList
  import opened TcsPool

  /** Nothing deleted before item j is that item's thread. */
  lemma {:induction false} DeletedWereBound(s: State, live: set<nat>, j: nat, t: nat)
    requires j <= |s.bound| && t in Deleted(s, live, s.bound[..j])
    ensures exists i :: 0 <= i < j && s.bound[i].value == t
    decreases j
  {
    hide Goes, Ref;
    assert s.bound[..j][..j - 1] == s.bound[..j - 1];
    if t in Deleted(s, live, s.bound[..j - 1]) {
      DeletedWereBound(s, live, j - 1, t);
    } else {
      assert s.bound[j - 1].value == t;
    }
  }

  lemma StillCounted(s: State, live: set<nat>, j: nat)
    requires Inv(s) && j < |s.bound|
    ensures s.bound[j].value !in Deleted(s, live, s.bound[..j])
  {
    hide Inv, Deleted;
    var t := s.bound[j].value;
    if t in Deleted(s, live, s.bound[..j]) {
      DeletedWereBound(s, live, j, t);
      var i :| 0 <= i < j && s.bound[i].value == t;
      BoundOnce(s, i, j);
      assert false;
    }
  }

  /** The first j items of the list were looked at; i of them were kept. */
  ghost predicate Progress(s: State, p: State, live: set<nat>, i: nat, j: nat, count: nat) {
    && j <= |s.bound| && i == |Kept(s, live, s.bound[..j])|
    && p.mode == s.mode && p.minPool == s.minPool && p.unallocated == s.unallocated && p.utility == s.utility
    && p.bound == Kept(s, live, s.bound[..j]) + s.bound[j..]
    && p.free == s.free + Freed(s, live, s.bound[..j])
    && p.refs == s.refs - Elements(Deleted(s, live, s.bound[..j]))
    && count == |Freed(s, live, s.bound[..j])|
  }

  lemma ProgressStart(s: State, live: set<nat>)
    ensures Progress(s, s, live, 0, 0, 0)
  {
    assert s.bound[..0] == [];
    assert s.refs - {} == s.refs;
  }

  lemma ProgressAt(s: State, p: State, live: set<nat>, i: nat, j: nat, count: nat)
    requires Inv(s) && Progress(s, p, live, i, j, count) && i < |p.bound|
    ensures j < |s.bound| && p.bound[i] == s.bound[j]
    ensures Ref(p, p.bound[i].value) == Ref(s, p.bound[i].value)
    ensures Goes(p, live, p.bound[i]) == Goes(s, live, p.bound[i])
  {
    hide Inv, Kept, Freed, Deleted;
    StillCounted(s, live, j);
  }

  lemma Front(s: State, j: nat)
    requires j < |s.bound|
    ensures s.bound[..j + 1][..j] == s.bound[..j] && s.bound[j..] == [s.bound[j]] + s.bound[j + 1..]
    ensures s.bound[..j + 1][j] == s.bound[j]
  {
  }

  lemma ProgressFree(s: State, p: State, live: set<nat>, i: nat, j: nat, count: nat)
    requires Progress(s, p, live, i, j, count) && i < |p.bound| && j < |s.bound| && p.bound[i] == s.bound[j]
    requires Goes(s, live, p.bound[i]) && Ref(s, p.bound[i].value) == 0
    ensures Progress(s, p.(free := p.free + [p.bound[i].value], bound := Removed(p.bound, i)),
                     live, i, j + 1, count + 1)
  {
    hide Goes, Ref;
    Front(s, j);
  }

  lemma ProgressDelete(s: State, p: State, live: set<nat>, i: nat, j: nat, count: nat)
    requires Progress(s, p, live, i, j, count) && i < |p.bound| && j < |s.bound| && p.bound[i] == s.bound[j]
    requires Goes(s, live, p.bound[i]) && Ref(s, p.bound[i].value) != 0
    ensures Progress(s, p.(refs := p.refs - {p.bound[i].value}, bound := Removed(p.bound, i)), live, i, j + 1, count)
  {
    hide Goes, Ref;
    Front(s, j);
    var gone := Deleted(s, live, s.bound[..j]);
    assert Elements(gone + [p.bound[i].value]) == Elements(gone) + {p.bound[i].value};
  }

  lemma ProgressKeep(s: State, p: State, live: set<nat>, i: nat, j: nat, count: nat)
    requires Progress(s, p, live, i, j, count) && i < |p.bound| && j < |s.bound| && p.bound[i] == s.bound[j]
    requires !Goes(s, live, p.bound[i])
    ensures Progress(s, p, live, i + 1, j + 1, count)
  {
    hide Goes, Ref;
    Front(s, j);
  }

  lemma ProgressEnd(s: State, p: State, live: set<nat>, i: nat, j: nat, count: nat)
    requires Progress(s, p, live, i, j, count) && i >= |p.bound|
    ensures p == Collect(s, live) && count == |Freed(s, live, s.bound)|
  {
    hide Kept, Freed, Deleted;
    assert s.bound[..j] == s.bound;
  }

  class Pool {
    const mode: Mode
    const minPool: nat
    var free: seq<nat>
    var unallocated: seq<nat>
    var bound: seq<Item>
    var utility: Option<nat>
    var refs: map<nat, int>

    function S(): State
      reads this
    {
      State(mode, minPool, free, unallocated, bound, utility, refs)
    }

    constructor (mode: Mode, minPool: nat)
      ensures S() == Empty(mode, minPool).s
    {
      this.mode, this.minPool := mode, minPool;
      free, unallocated, bound, utility, refs := [], [], [], None, map[];
    }

    method Add(t: nat, isUnallocated: bool, dynamic: bool)
      modifies this
      ensures S() == AddThread(old(S()), t, isUnallocated, dynamic)
    {
      refs := refs[t := 0];
      if !isUnallocated {
        if dynamic && utility.None? {
          utility := Some(t);
        } else {
          free := free + [t];
        }
      } else {
        unallocated := unallocated + [t];
      }
    }

    method GetFree() returns (t: Option<nat>)
      modifies this`free
      ensures if old(free) == [] then t == None && free == []
              else t == Some(old(free)[|old(free)| - 1]) && free == old(free)[..|old(free)| - 1]
    {
      if free == [] {
        return None;
      }
      t := Some(free[|free| - 1]);
      free := free[..|free| - 1];
    }

    method Bind(tid: nat, t: nat) returns (ok: bool)
      modifies this`bound
      ensures (S(), ok) == BindThread(old(S()), tid, t)
    {
      if IndexOf(bound, tid) < |bound| {
        return false;
      }
      bound := Inserted(bound, Item(tid, t));
      ok := true;
    }

    method Unbind(tid: nat)
      modifies this
      ensures S() == UnbindThread(old(S()), tid)
    {
      var i := IndexOf(bound, tid);
      if i < |bound| {
        var t := bound[i].value;
        refs := refs[t := 0];
        free := free + [t];
        bound := Removed(bound, i);
      }
    }

    method Exited(threads: seq<nat>, tid: nat) returns (r: bool)
      ensures r <==> tid !in Elements(threads)
    {
      for i := 0 to |threads|
        invariant tid !in threads[..i]
      {
        if threads[i] == tid {
          return false;
        }
      }
      return true;
    }

    /** Walks the list once, taking out what goes; returns how many threads became free. */
    method GarbageCollect(threads: seq<nat>) returns (count: nat)
      requires Inv(S())
      modifies this
      ensures S() == Collect(old(S()), Elements(threads))
      ensures count == |Freed(old(S()), Elements(threads), old(bound))|
    {
      hide Inv, Progress, Goes, Collect, Freed;
      ghost var s, live := S(), Elements(threads);
      var i := 0;
      ghost var j := 0;
      count := 0;
      ProgressStart(s, live);
      while i < |bound|
        invariant Progress(s, S(), live, i, j, count)
        decreases |s.bound| - j
      {
        var item := bound[i];
        ghost var p, was := S(), count;
        ProgressAt(s, p, live, i, j, count);
        var gone := Leaves(item, threads);
        if gone {
          if Ref(S(), item.value) == 0 {
            free := free + [item.value];
            count := count + 1;
            ProgressFree(s, p, live, i, j, was);
          } else {
            refs := refs - {item.value};
            ProgressDelete(s, p, live, i, j, was);
          }
          bound := Removed(bound, i);
        } else {
          ProgressKeep(s, p, live, i, j, was);
          i := i + 1;
        }
        j := j + 1;
      }
      ProgressEnd(s, S(), live, i, j, count);
    }

    method Leaves(item: Item, threads: seq<nat>) returns (gone: bool)
      ensures gone <==> Goes(S(), Elements(threads), item)
    {
      if mode == TcsPool.Bind {
        gone := Exited(threads, item.key);
      } else {
        gone := item.value !in refs || refs[item.value] == 0;
      }
    }

    /** One attempt: the thread bound to the caller, a free one, or one that collection frees.
        Binding does not fail, and a collection that reports threads leaves one to take. */
    method TryToAcquire(tid: nat, threads: seq<nat>) returns (r: Option<nat>)
      requires Inv(S())
      modifies this
      ensures Attempt(S(), r, true) == TryAcquire(old(S()), tid, Elements(threads))
    {
      hide Inv, Freed, Kept, Deleted;
      TryKeeps(S(), tid, Elements(threads));
      var i := IndexOf(bound, tid);
      if i < |bound| && utility != Some(bound[i].value) {
        return Some(bound[i].value);
      }
      r := GetFree();
      if r.None? {
        var count := GarbageCollect(threads);
        if count == 0 {
          return None;
        }
        r := GetFree();
        assert r.Some?;
      }
      var ok := Bind(tid, r.value);
      assert ok;
    }

    method MakeThread(made: bool) returns (ok: bool)
      modifies this
      ensures (S(), ok) == NewThread(old(S()), made)
    {
      if utility.None? {
        return false;
      }
      if unallocated == [] {
        return true;
      }
      ok := made;
      if ok {
        var t := unallocated[|unallocated| - 1];
        free := free + [t];
        unallocated := unallocated[..|unallocated| - 1];
      }
    }

    /** A fill pass whose first count attempts succeed; it ends because every success takes
        a thread off the unallocated ones. */
    method FillMiniPool(count: nat)
      modifies this
      ensures S() == Filled(old(S()), count)
    {
      var left := count;
      var stop := false;
      while !stop
        invariant stop ==> S() == Filled(old(S()), count)
        invariant !stop ==> Filled(S(), left) == Filled(old(S()), count)
        decreases if stop then 0 else 1 + |unallocated|
      {
        if NeedsNew(S()) {
          var ok := MakeThread(left > 0);
          if !ok {
            stop := true;
          } else {
            left := left - 1;
          }
        } else {
          stop := true;
        }
      }
    }

    method AcquireThread(special: bool, uninit: bool, tid: nat, threads: seq<nat>, made: nat)
        returns (r: Option<nat>, ghost a: Attempt)
      requires Inv(S())
      modifies this
      ensures a == if special then AcquireSpecial(old(S()), tid, uninit, Elements(threads))
                   else AcquireOrdinary(old(S()), tid, Elements(threads), made)
      ensures r == a.thread && a.bindOk
      ensures S() == if r.Some? then AddRef(a.s, r.value, 1) else a.s
    {
      hide Inv, TryAcquire, Filled, UnbindThread;
      ghost var s, live := S(), Elements(threads);
      if special && utility.Some? {
        r := utility;
        if uninit {
          TakeUtilityKeeps(s, tid);
          UnbindFrame(s, tid);
          Unbind(tid);
          var ok := Bind(tid, r.value);
          utility := None;
          a := TakeUtility(s, tid);
        } else {
          a := Attempt(s, r, true);
        }
      } else {
        TryKeeps(s, tid, live);
        r := TryToAcquire(tid, threads);
        a := Attempt(S(), r, true);
        if !special && r.None? && utility.Some? {
          FillKeeps(S(), made);
          FillMiniPool(made);
          TryKeeps(S(), tid, live);
          r := TryToAcquire(tid, threads);
          a := Attempt(S(), r, true);
        }
      }
      if r.Some? {
        refs := refs[r.value := Ref(S(), r.value) + 1];
      }
    }

    method ReleaseThread(t: nat)
      modifies this`refs
      ensures S() == AddRef(old(S()), t, -1)
    {
      refs := refs[t := Ref(S(), t) - 1];
    }

    method ResetThreads()
      modifies this
      ensures S() == Reset(old(S()))
    {
      var list := bound;
      ghost var s := S();
      bound := [];
      for i := 0 to |list|
        invariant S() == ResetAll(s, list[..i])
      {
        assert list[..i + 1][..i] == list[..i];
        refs := refs[list[i].value := 0];
        free := free + [list[i].value];
      }
      assert list[..|list|] == list;
    }
  }
}
