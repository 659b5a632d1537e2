/** The singly linked key-value list under the thread pool and the enclave pool, and the
    sequence operations it implements. */
module NodeList {

  /** Both pools key their lists by numbers and hold references; here a value is the number
      of what is referred to. */
  datatype Item = Item(key: nat, value: nat)

  /** Position of the first item with the key, or the length of the list. */
  function IndexOf(list: seq<Item>, k: nat): (i: nat)
    ensures i <= |list| && (i < |list| ==> list[i].key == k)
    ensures forall j | 0 <= j < i :: list[j].key != k
  {
    if list == [] then 0
    else if list[0].key == k then 0
    else 1 + IndexOf(list[1..], k)
  }

  lemma FirstIsIndex(list: seq<Item>, k: nat, i: nat)
    requires i <= |list| && (i < |list| ==> list[i].key == k)
    requires forall j | 0 <= j < i :: list[j].key != k
    ensures i == IndexOf(list, k)
  {
  }

  ghost predicate HasKey(list: seq<Item>, k: nat) {
    exists i :: 0 <= i < |list| && list[i].key == k
  }

  ghost predicate DistinctKeys(list: seq<Item>) {
    forall i, j | 0 <= i < j < |list| :: list[i].key != list[j].key
  }

  /** A new item goes right after the head; an empty list becomes the item alone. */
  function Inserted(list: seq<Item>, item: Item): seq<Item> {
    if list == [] then [item] else [list[0], item] + list[1..]
  }

  function Removed(list: seq<Item>, i: nat): seq<Item>
    requires i < |list|
  {
    list[..i] + list[i + 1..]
  }

  lemma InsertedHas(list: seq<Item>, item: Item, x: Item)
    ensures x in Inserted(list, item) <==> x in list || x == item
  {
    if list != [] {
      assert list == [list[0]] + list[1..];
    }
  }

  lemma RemovedHas(list: seq<Item>, i: nat, x: Item)
    requires i < |list| && x in list && x != list[i]
    ensures x in Removed(list, i)
  {
    var j :| 0 <= j < |list| && list[j] == x;
    assert Removed(list, i)[if j < i then j else j - 1] == x;
  }

  lemma RemovedIs(list: seq<Item>, i: nat, x: Item)
    requires i < |list| && DistinctKeys(list)
    ensures x in Removed(list, i) <==> x in list && x != list[i]
  {
    var after := Removed(list, i);
    if x in after {
      var j :| 0 <= j < |after| && after[j] == x;
      assert x == list[if j < i then j else j + 1];
    }
    if x in list && x != list[i] {
      RemovedHas(list, i, x);
    }
  }

  class Node {
    const key: nat
    const value: nat
    var next: Node?

    constructor (key: nat, value: nat)
      ensures this.key == key && this.value == value && next == null
    {
      this.key := key;
      this.value := value;
      next := null;
    }

    method Find(k: nat, ghost chain: seq<Node>) returns (r: Node?)
      requires Chain(this, chain)
      ensures r == if IndexOf(Items(chain), k) < |chain| then chain[IndexOf(Items(chain), k)] else null
    {
      var c: Node? := this;
      ghost var i := 0;
      while c != null
        invariant i <= |chain| && c == At(chain, i)
        invariant forall j | 0 <= j < i :: chain[j].key != k
        decreases |chain| - i
      {
        if c.key == k {
          FirstIsIndex(Items(chain), k, i);
          return c;
        }
        c := c.next;
        i := i + 1;
      }
      FirstIsIndex(Items(chain), k, i);
      return null;
    }

    /** Fails, changing nothing, exactly when the key is present. */
    method InsertNext(p: Node, ghost chain: seq<Node>) returns (ok: bool, ghost after: seq<Node>)
      requires Chain(this, chain) && p !in chain
      modifies this, p
      ensures ok <==> IndexOf(Items(chain), p.key) == |chain|
      ensures Chain(this, after)
      ensures Items(after) == if ok then Inserted(Items(chain), Item(p.key, p.value)) else Items(chain)
      ensures forall n | n in after :: n in chain || n == p
    {
      var found := Find(p.key, chain);
      if found != null {
        return false, chain;
      }
      p.next := this.next;
      this.next := p;
      ok, after := true, [this, p] + chain[1..];
    }

    /** Takes the next node c out of the chain; the head next to itself stays as it is. */
    method Unlink(c: Node, ghost chain: seq<Node>, ghost i: nat)
      requires i < |chain| && Chain(chain[0], chain) && c == chain[i] && this == chain[if i == 0 then 0 else i - 1]
      modifies this
      ensures Chain(if i == 0 then c.next else chain[0], chain[..i] + chain[i + 1..])
    {
      ghost var after := chain[..i] + chain[i + 1..];
      UnlinkedNodes(chain, i, after);
      next := c.next;
      forall j | 0 <= j < |after| ensures after[j].next == At(after, j + 1) {
        if j == i - 1 {
          assert after[j] == this && At(after, i) == At(chain, i + 1);
        } else if j < i {
          assert after[j] == chain[j] != this && At(after, j + 1) == chain[j + 1];
        } else {
          assert after[j] == chain[j + 1] && At(after, j + 1) == At(chain, j + 2);
        }
      }
    }

    /** Unlinks the first node with the key; a matching head stays linked to the rest, for
        the caller to drop. */
    method Remove(k: nat, ghost chain: seq<Node>) returns (c: Node?, ghost after: seq<Node>)
      requires Chain(this, chain)
      modifies chain
      ensures c == if IndexOf(Items(chain), k) < |chain| then chain[IndexOf(Items(chain), k)] else null
      ensures c == null ==> after == chain && Chain(this, chain)
      ensures c != null ==> Items(after) == Removed(Items(chain), IndexOf(Items(chain), k))
      ensures c != null && c != this ==> Chain(this, after)
      ensures c == this ==> Chain(c.next, after)
      ensures forall n | n in after :: n in chain
    {
      c := this;
      var p := this;
      ghost var i := 0;
      while c != null
        invariant i <= |chain| && c == At(chain, i) && p == chain[if i == 0 then 0 else i - 1]
        invariant Chain(this, chain)
        invariant forall j | 0 <= j < i :: chain[j].key != k
        decreases |chain| - i
      {
        if c.key == k {
          FirstIsIndex(Items(chain), k, i);
          after := chain[..i] + chain[i + 1..];
          assert Items(after) == Removed(Items(chain), i);
          p.Unlink(c, chain, i);
          return;
        }
        p := c;
        c := c.next;
        i := i + 1;
      }
      FirstIsIndex(Items(chain), k, i);
      after := chain;
    }
  }

  ghost function At(chain: seq<Node>, i: nat): Node? {
    if i < |chain| then chain[i] else null
  }

  /** The nodes reached from head, in order. */
  ghost predicate Chain(head: Node?, chain: seq<Node>)
    reads chain
  {
    && head == At(chain, 0)
    && (forall i | 0 <= i < |chain| :: chain[i].next == At(chain, i + 1))
    && forall i, j | 0 <= i < j < |chain| :: chain[i] != chain[j]
  }

  lemma UnlinkedNodes(chain: seq<Node>, i: nat, after: seq<Node>)
    requires i < |chain| && after == chain[..i] + chain[i + 1..]
    requires forall k, j | 0 <= k < j < |chain| :: chain[k] != chain[j]
    ensures |after| == |chain| - 1 && forall j | 0 <= j < |after| :: after[j] == chain[if j < i then j else j + 1]
    ensures forall k, j | 0 <= k < j < |after| :: after[k] != after[j]
  {
  }

  ghost function Items(chain: seq<Node>): (r: seq<Item>)
    ensures |r| == |chain|
  {
    seq(|chain|, i requires 0 <= i < |chain| => Item(chain[i].key, chain[i].value))
  }

  lemma InsertKeepsDistinct(list: seq<Item>, item: Item)
    requires DistinctKeys(list)
    ensures DistinctKeys(Inserted(list, item)) <==> !HasKey(list, item.key)
  {
    var after := Inserted(list, item);
    if HasKey(list, item.key) {
      var i :| 0 <= i < |list| && list[i].key == item.key;
      assert after[if i == 0 then 0 else i + 1] == list[i] && after[1] == item;
    } else {
      assert forall i | 0 <= i < |list| :: list[i].key != item.key;
    }
  }

  lemma RemoveKeepsDistinct(list: seq<Item>, i: nat)
    requires DistinctKeys(list) && i < |list|
    ensures DistinctKeys(Removed(list, i)) && !HasKey(Removed(list, i), list[i].key)
  {
    var after := Removed(list, i);
    assert forall j | 0 <= j < |after| :: after[j] == list[if j < i then j else j + 1];
  }
}
