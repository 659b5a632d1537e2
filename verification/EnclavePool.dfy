/** The pool of enclave objects: looked up by number, counted while calls use them, and
    deleted when removed and no longer used. */
module EnclavePool {
  import opened Basics
  import opened NodeList

  /** Objects are numbered; refs holds the count of each one that exists. A surrendered object
      was handed to a caller, who deletes it. */
  datatype State = State(list: seq<Item>, refs: map<nat, int>, zombies: set<nat>, surrendered: set<nat>)

  function Ref(s: State, o: nat): int {
    if o in s.refs then s.refs[o] else 0
  }

  predicate Known(s: State, id: nat) {
    IndexOf(s.list, id) < |s.list|
  }

  function Lookup(s: State, id: nat): nat
    requires Known(s, id)
  {
    s.list[IndexOf(s.list, id)].value
  }

  /** A new object goes into the pool, unless its number is taken; its creator then deletes it. */
  function AddEnclave(s: State, id: nat, o: nat): (State, bool) {
    var s := s.(refs := s.refs[o := 0]);
    if Known(s, id) then (s.(surrendered := s.surrendered + {o}), false)
    else (s.(list := Inserted(s.list, Item(id, o))), true)
  }

  function RefEnclave(s: State, id: nat): (State, Option<nat>) {
    if !Known(s, id) then (s, None)
    else
      var o := Lookup(s, id);
      (s.(refs := s.refs[o := Ref(s, o) + 1]), Some(o))
  }

  function Deleted(s: State, o: nat): State {
    s.(refs := s.refs - {o}, zombies := s.zombies - {o}, surrendered := s.surrendered - {o})
  }

  /** The last user of a removed object deletes it. */
  function UnrefEnclave(s: State, o: nat): (State, bool) {
    var s := s.(refs := s.refs[o := Ref(s, o) - 1]);
    if o in s.zombies && Ref(s, o) == 0 then (Deleted(s, o), true) else (s, false)
  }

  /** An unused object is handed back; one in use stays, marked. */
  function RemoveEnclave(s: State, id: nat): (State, Option<nat>) {
    if !Known(s, id) then (s, None)
    else
      var o := Lookup(s, id);
      var s := s.(list := Removed(s.list, IndexOf(s.list, id)));
      if Ref(s, o) != 0 then (s.(zombies := s.zombies + {o}), None)
      else (s.(surrendered := s.surrendered + {o}), Some(o))
  }

  // ----- runs -----

  /** The pool with its past: objects ever made, uses taken and not given back, deletions. */
  datatype History = History(s: State, made: set<nat>, held: map<nat, int>, deletions: map<nat, int>)

  datatype Op = Add(id: nat, o: nat) | Take(id: nat) | Give(o: nat) | Remove(id: nat) | Delete(o: nat)

  ghost function Get(m: map<nat, int>, o: nat): int {
    if o in m then m[o] else 0
  }

  ghost function More(m: map<nat, int>, o: nat, n: int): map<nat, int> {
    m[o := Get(m, o) + n]
  }

  /** Objects are given back by those who took them, and deleted by those who got them. */
  ghost predicate Enabled(h: History, op: Op) {
    match op
    case Add(_, o) => o !in h.made
    case Take(_) => true
    case Give(o) => Get(h.held, o) > 0
    case Remove(_) => true
    case Delete(o) => o in h.s.surrendered
  }

  ghost function Step(h: History, op: Op): History {
    match op
    case Add(id, o) => h.(s := AddEnclave(h.s, id, o).0, made := h.made + {o})
    case Take(id) =>
      var (s, r) := RefEnclave(h.s, id);
      h.(s := s, held := if r.Some? then More(h.held, r.value, 1) else h.held)
    case Give(o) =>
      var (s, gone) := UnrefEnclave(h.s, o);
      h.(s := s, held := More(h.held, o, -1), deletions := if gone then More(h.deletions, o, 1) else h.deletions)
    case Remove(id) => h.(s := RemoveEnclave(h.s, id).0)
    case Delete(o) => h.(s := Deleted(h.s, o), deletions := More(h.deletions, o, 1))
  }

  ghost predicate Listed(s: State, o: nat) {
    exists i :: 0 <= i < |s.list| && s.list[i].value == o
  }

  ghost predicate ListedOnce(s: State) {
    DistinctKeys(s.list) && forall i, j | 0 <= i < j < |s.list| :: s.list[i].value != s.list[j].value
  }

  /** An existing object is listed, or was removed in use and still is, or is surrendered. */
  ghost predicate ObjectOk(h: History, o: nat) {
    && Ref(h.s, o) == Get(h.held, o) >= 0
    && Get(h.deletions, o) == (if o in h.made && o !in h.s.refs then 1 else 0)
    && (o in h.s.refs ==> o in h.made)
    && (Listed(h.s, o) ==> o in h.s.refs && o !in h.s.zombies && o !in h.s.surrendered)
    && (o in h.s.zombies ==> o in h.s.refs && o !in h.s.surrendered && Ref(h.s, o) > 0)
    && (o in h.s.surrendered ==> o in h.s.refs && Ref(h.s, o) == 0)
    && (o in h.s.refs ==> Listed(h.s, o) || o in h.s.zombies || o in h.s.surrendered)
  }

  ghost predicate Inv(h: History) {
    ListedOnce(h.s) && forall o: nat :: ObjectOk(h, o)
  }

  lemma InsertedLists(s: State, item: Item, o: nat)
    ensures Listed(s.(list := Inserted(s.list, item)), o) <==> Listed(s, o) || item.value == o
  {
    var after := Inserted(s.list, item);
    if Listed(s, o) {
      var i :| 0 <= i < |s.list| && s.list[i].value == o;
      assert after[if i == 0 then 0 else i + 1] == s.list[i];
    }
    if item.value == o {
      assert after[if s.list == [] then 0 else 1] == item;
    }
    if Listed(s.(list := after), o) && item.value != o {
      var i :| 0 <= i < |after| && after[i].value == o;
      assert after[i] == s.list[if i == 0 then 0 else i - 1];
    }
  }

  lemma RemovedLists(s: State, i: nat, o: nat)
    requires ListedOnce(s) && i < |s.list|
    ensures Listed(s.(list := Removed(s.list, i)), o) <==> Listed(s, o) && s.list[i].value != o
    ensures ListedOnce(s.(list := Removed(s.list, i)))
  {
    var after := Removed(s.list, i);
    RemoveKeepsDistinct(s.list, i);
    assert forall j | 0 <= j < |after| :: after[j] == s.list[if j < i then j else j + 1];
    if Listed(s, o) && s.list[i].value != o {
      var j :| 0 <= j < |s.list| && s.list[j].value == o;
      assert after[if j < i then j else j - 1] == s.list[j];
    }
  }

  lemma LookupIsListed(h: History, id: nat)
    requires Inv(h) && Known(h.s, id)
    ensures Listed(h.s, Lookup(h.s, id)) && ObjectOk(h, Lookup(h.s, id))
  {
  }

  lemma AddInv(h: History, id: nat, o: nat)
    requires Inv(h) && o !in h.made
    ensures Inv(Step(h, Add(id, o)))
  {
    hide Listed;
    var h' := Step(h, Add(id, o));
    if !Known(h.s, id) {
      InsertKeepsDistinct(h.s.list, Item(id, o));
      InsertOnce(h.s, Item(id, o)) by {
        assert ObjectOk(h, o);
      }
    }
    forall x: nat ensures ObjectOk(h', x) {
      assert ObjectOk(h, x);
      InsertedLists(h.s, Item(id, o), x);
      SameList(h.s, h'.s, x);
      SameList(h.s.(list := Inserted(h.s.list, Item(id, o))), h'.s, x);
    }
  }

  lemma SameList(s: State, s': State, o: nat)
    ensures s.list == s'.list ==> Listed(s, o) == Listed(s', o)
  {
  }

  lemma InsertOnce(s: State, item: Item)
    requires ListedOnce(s) && !Listed(s, item.value) && !Known(s, item.key)
    ensures ListedOnce(s.(list := Inserted(s.list, item)))
  {
    InsertKeepsDistinct(s.list, item);
    var after := Inserted(s.list, item);
    assert forall i | 0 <= i < |s.list| :: s.list[i].value != item.value;
  }

  lemma TakeInv(h: History, id: nat)
    requires Inv(h)
    ensures Inv(Step(h, Take(id)))
  {
    hide Listed;
    var h' := Step(h, Take(id));
    if Known(h.s, id) {
      LookupIsListed(h, id);
    }
    forall x: nat ensures ObjectOk(h', x) {
      assert ObjectOk(h, x);
      SameList(h.s, h'.s, x);
    }
  }

  lemma GiveInv(h: History, o: nat)
    requires Inv(h) && Get(h.held, o) > 0
    ensures Inv(Step(h, Give(o)))
  {
    hide Listed;
    var h' := Step(h, Give(o));
    assert ObjectOk(h, o);
    forall x: nat ensures ObjectOk(h', x) {
      assert ObjectOk(h, x);
      SameList(h.s, h'.s, x);
    }
  }

  lemma RemoveInv(h: History, id: nat)
    requires Inv(h)
    ensures Inv(Step(h, Remove(id)))
  {
    hide Listed;
    var h' := Step(h, Remove(id));
    if Known(h.s, id) {
      var i := IndexOf(h.s.list, id);
      LookupIsListed(h, id);
      RemovedLists(h.s, i, 0);
      forall x: nat ensures ObjectOk(h', x) {
        assert ObjectOk(h, x);
        RemovedLists(h.s, i, x);
        SameList(h.s.(list := Removed(h.s.list, i)), h'.s, x);
      }
    }
  }

  lemma DeleteInv(h: History, o: nat)
    requires Inv(h) && o in h.s.surrendered
    ensures Inv(Step(h, Delete(o)))
  {
    hide Listed;
    var h' := Step(h, Delete(o));
    assert ObjectOk(h, o);
    forall x: nat ensures ObjectOk(h', x) {
      assert ObjectOk(h, x);
      SameList(h.s, h'.s, x);
    }
  }

  ghost function Empty(): History {
    History(State([], map[], {}, {}), {}, map[], map[])
  }

  ghost predicate RunsTo(h: History, ops: seq<Op>, last: History)
    decreases |ops|
  {
    if ops == [] then h == last
    else Enabled(h, ops[0]) && RunsTo(Step(h, ops[0]), ops[1..], last)
  }

  lemma StepInv(h: History, op: Op)
    requires Inv(h) && Enabled(h, op)
    ensures Inv(Step(h, op))
  {
    hide Inv, Step;
    match op
    case Add(id, o) => AddInv(h, id, o);
    case Take(id) => TakeInv(h, id);
    case Give(o) => GiveInv(h, o);
    case Remove(id) => RemoveInv(h, id);
    case Delete(o) => DeleteInv(h, o);
  }

  lemma {:induction false} RunInv(h: History, ops: seq<Op>, last: History)
    requires Inv(h) && RunsTo(h, ops, last)
    ensures Inv(last)
    decreases |ops|
  {
    hide Inv, Step;
    if ops != [] {
      StepInv(h, ops[0]);
      RunInv(Step(h, ops[0]), ops[1..], last);
    }
  }

  /** In every run, an object in use or in the pool exists, and none is deleted twice. One that
      has left the pool unused is deleted, or with the caller who is to delete it. */
  lemma DeletedExactlyOnce(ops: seq<Op>, last: History, o: nat)
    requires RunsTo(Empty(), ops, last) && o in last.made
    ensures Get(last.held, o) > 0 || Listed(last.s, o) ==> o in last.s.refs && Get(last.deletions, o) == 0
    ensures Get(last.held, o) == 0 && !Listed(last.s, o) ==>
              (o in last.s.surrendered && Get(last.deletions, o) == 0)
              || (o !in last.s.refs && Get(last.deletions, o) == 1)
  {
    RunInv(Empty(), ops, last);
    assert ObjectOk(last, o);
  }

  /** A deletion never hits an object that is in use or in the pool. */
  lemma DeletionIsSafe(ops: seq<Op>, h: History, op: Op, o: nat)
    requires RunsTo(Empty(), ops, h) && Enabled(h, op) && Get(Step(h, op).deletions, o) != Get(h.deletions, o)
    ensures Get(Step(h, op).held, o) == 0 && !Listed(Step(h, op).s, o)
    ensures Get(Step(h, op).deletions, o) == 1
  {
    RunInv(Empty(), ops, h);
    StepInv(h, op);
    assert ObjectOk(h, o) && ObjectOk(Step(h, op), o);
  }

  // ----- the pool is a map from numbers to objects -----

  /** What the pool should hold after an operation: additions of free numbers and removals. */
  ghost function Applied(m: map<nat, nat>, op: Op): map<nat, nat> {
    match op
    case Add(id, o) => if id in m then m else m[id := o]
    case Remove(id) => m - {id}
    case _ => m
  }

  ghost function Contents(m: map<nat, nat>, ops: seq<Op>): map<nat, nat>
    decreases |ops|
  {
    if ops == [] then m else Contents(Applied(m, ops[0]), ops[1..])
  }

  /** The list holds the map's pairs. */
  ghost predicate Shows(s: State, m: map<nat, nat>) {
    forall item :: item in s.list <==> item.key in m && m[item.key] == item.value
  }

  lemma KnownIff(s: State, m: map<nat, nat>, id: nat)
    requires Shows(s, m)
    ensures Known(s, id) <==> id in m
    ensures id in m ==> Lookup(s, id) == m[id]
  {
    if Known(s, id) {
      assert s.list[IndexOf(s.list, id)] in s.list;
    }
    if id in m {
      assert Item(id, m[id]) in s.list;
    }
  }

  lemma AddShows(s: State, m: map<nat, nat>, id: nat, o: nat)
    requires Shows(s, m)
    ensures Shows(AddEnclave(s, id, o).0, Applied(m, Add(id, o)))
  {
    KnownIff(s, m, id);
    var m' := Applied(m, Add(id, o));
    forall x ensures x in AddEnclave(s, id, o).0.list <==> x.key in m' && m'[x.key] == x.value {
      assert x in s.list <==> x.key in m && m[x.key] == x.value;
      InsertedHas(s.list, Item(id, o), x);
    }
  }

  lemma RemoveShows(s: State, m: map<nat, nat>, id: nat)
    requires Shows(s, m) && DistinctKeys(s.list)
    ensures Shows(RemoveEnclave(s, id).0, Applied(m, Remove(id)))
  {
    KnownIff(s, m, id);
    if Known(s, id) {
      var i := IndexOf(s.list, id);
      var m' := m - {id};
      forall x ensures x in Removed(s.list, i) <==> x.key in m' && m'[x.key] == x.value {
        assert x in s.list <==> x.key in m && m[x.key] == x.value;
        RemovedIs(s.list, i, x);
        assert s.list[i] in s.list;
      }
    } else {
      assert m - {id} == m;
    }
  }

  lemma StepShows(h: History, op: Op, m: map<nat, nat>)
    requires Inv(h) && Shows(h.s, m)
    ensures Shows(Step(h, op).s, Applied(m, op))
  {
    match op
    case Add(id, o) => AddShows(h.s, m, id, o);
    case Remove(id) => RemoveShows(h.s, m, id);
    case _ =>
  }

  lemma {:induction false} RunShows(h: History, ops: seq<Op>, last: History, m: map<nat, nat>)
    requires Inv(h) && Shows(h.s, m) && RunsTo(h, ops, last)
    ensures Shows(last.s, Contents(m, ops))
    decreases |ops|
  {
    hide Inv, Step, Shows, Applied;
    if ops != [] {
      StepInv(h, ops[0]);
      StepShows(h, ops[0], m);
      RunShows(Step(h, ops[0]), ops[1..], last, Applied(m, ops[0]));
    }
  }

  /** In every run the pool is a map from numbers to objects: taking a number gives the object it
      was added with, adding succeeds exactly for a free number, and removing hands the object
      back exactly if nobody has it. */
  lemma PoolIsAMap(ops: seq<Op>, last: History, id: nat, o: nat)
    requires RunsTo(Empty(), ops, last)
    ensures var m := Contents(map[], ops);
      && RefEnclave(last.s, id).1 == (if id in m then Some(m[id]) else None)
      && (AddEnclave(last.s, id, o).1 <==> id !in m)
      && RemoveEnclave(last.s, id).1 == (if id in m && Get(last.held, m[id]) == 0 then Some(m[id]) else None)
  {
    RunInv(Empty(), ops, last);
    hide RunsTo;
    var m := Contents(map[], ops);
    RunShows(Empty(), ops, last, map[]);
    KnownIff(last.s, m, id);
    KnownIff(last.s.(refs := last.s.refs[o := 0]), m, id);
    if id in m {
      assert ObjectOk(last, m[id]);
    }
  }

  /** The pool over the linked list. Each method is one critical section of the pool's lock. */
  class Pool {
    var head: Node?
    var refs: map<nat, int>
    var zombies: set<nat>
    var surrendered: set<nat>
    ghost var chain: seq<Node>

    ghost predicate Valid()
      reads this, chain
    {
      Chain(head, chain)
    }

    ghost function S(): State
      reads this
    {
      State(Items(chain), refs, zombies, surrendered)
    }

    constructor ()
      ensures Valid() && S() == Empty().s && chain == []
    {
      head, refs, zombies, surrendered, chain := null, map[], {}, {}, [];
    }

    method Find(id: nat) returns (node: Node?)
      requires Valid()
      ensures node == if Known(S(), id) then chain[IndexOf(S().list, id)] else null
    {
      if head == null {
        return null;
      }
      node := head.Find(id, chain);
    }

    method Link(id: nat, o: nat) returns (ok: bool)
      requires Valid()
      modifies this`head, this`chain, chain
      ensures Valid() && forall n | n in chain :: n in old(chain) || fresh(n)
      ensures ok <==> !Known(old(S()), id)
      ensures S().list == if ok then Inserted(old(S()).list, Item(id, o)) else old(S()).list
    {
      var node := new Node(id, o);
      if head == null {
        head, chain := node, [node];
        return true;
      }
      ok, chain := head.InsertNext(node, chain);
    }

    method Unlink(id: nat)
      requires Valid() && Known(S(), id)
      modifies this`head, this`chain, chain
      ensures Valid() && forall n | n in chain :: n in old(chain)
      ensures S().list == Removed(old(S()).list, IndexOf(old(S()).list, id))
    {
      var removed;
      ghost var after;
      removed, after := head.Remove(id, chain);
      if removed == head {
        head := removed.next;
      }
      chain := after;
    }

    method Add(id: nat, o: nat) returns (ok: bool)
      requires Valid()
      modifies this, chain
      ensures Valid() && forall n | n in chain :: n in old(chain) || fresh(n)
      ensures (S(), ok) == AddEnclave(old(S()), id, o)
    {
      hide Inserted, At;
      ok := Link(id, o);
      refs := refs[o := 0];
      if !ok {
        surrendered := surrendered + {o};
      }
    }

    method Take(id: nat) returns (r: Option<nat>)
      requires Valid()
      modifies this`refs
      ensures Valid() && (S(), r) == RefEnclave(old(S()), id)
    {
      hide At;
      var node := Find(id);
      if node == null {
        return None;
      }
      r := Some(node.value);
      refs := refs[node.value := (if node.value in refs then refs[node.value] else 0) + 1];
    }

    method Give(o: nat) returns (gone: bool)
      requires Valid()
      modifies this`refs, this`zombies, this`surrendered
      ensures Valid() && (S(), gone) == UnrefEnclave(old(S()), o)
    {
      var ref := (if o in refs then refs[o] else 0) - 1;
      refs := refs[o := ref];
      gone := o in zombies && ref == 0;
      if gone {
        refs, zombies, surrendered := refs - {o}, zombies - {o}, surrendered - {o};
      }
    }

    method Remove(id: nat) returns (r: Option<nat>)
      requires Valid()
      modifies this, chain
      ensures Valid() && forall n | n in chain :: n in old(chain)
      ensures (S(), r) == RemoveEnclave(old(S()), id)
    {
      var node := Find(id);
      if node == null {
        return None;
      }
      var o := node.value;
      r := None;
      if o in refs && refs[o] != 0 {
        zombies := zombies + {o};
      } else {
        surrendered := surrendered + {o};
        r := Some(o);
      }
      Unlink(id);
    }
  }
}
