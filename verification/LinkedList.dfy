/** The doubly linked list of libutil. */
module LinkedLists {

  class Item<T> {
    var next: Item?<T>
    var prev: Item?<T>
    const payload: T

    constructor (payload: T, prev: Item?<T>)
      ensures this.payload == payload && this.prev == prev && next == null
    {
      this.payload := payload;
      this.prev := prev;
      next := null;
    }
  }

  /** list_rotate on contents. */
  function Rotate<T>(s: seq<T>): seq<T> {
    if |s| < 2 then s else s[1..] + [s[0]]
  }

  function RemoveAt<T>(s: seq<T>, k: nat): seq<T>
    requires k < |s|
  {
    s[..k] + s[k + 1..]
  }

  /** Index of the first occurrence, or the length. */
  function IndexOf<T(==)>(s: seq<T>, x: T): (k: nat)
    ensures k <= |s| && (k < |s| ==> s[k] == x)
    ensures k < |s| <==> x in s
  {
    if s == [] || s[0] == x then 0 else 1 + IndexOf(s[1..], x)
  }

  lemma {:induction false} NotBefore<T>(s: seq<T>, x: T)
    ensures x !in s[..IndexOf(s, x)]
  {
    if s != [] && s[0] != x {
      NotBefore(s[1..], x);
      var k := IndexOf(s, x);
      assert s[..k] == [s[0]] + s[1..][..k - 1];
    }
  }

  ghost function PrevOf<T>(nodes: seq<Item<T>>, i: int): Item?<T> {
    if 0 < i <= |nodes| then nodes[i - 1] else null
  }

  ghost function NextOf<T>(nodes: seq<Item<T>>, i: int): Item?<T> {
    if 0 <= i + 1 < |nodes| then nodes[i + 1] else null
  }

  ghost predicate Distinct<T>(s: seq<Item<T>>) {
    forall i, j | 0 <= i < j < |s| :: s[i] != s[j]
  }

  ghost function Payloads<T>(nodes: seq<Item<T>>): (s: seq<T>)
    ensures |s| == |nodes|
  {
    seq(|nodes|, i requires 0 <= i < |nodes| => nodes[i].payload)
  }

  class List<T(==)> {
    var items: nat
    var first: Item?<T>
    var last: Item?<T>
    ghost var nodes: seq<Item<T>>
    /** The items allocated so far. */
    ghost var repr: set<Item<T>>

    /** Item i of the row is linked to its neighbours in the row. */
    ghost predicate LinkedAt(row: seq<Item<T>>, i: int)
      reads this`repr, repr
    {
      0 <= i < |row| && row[i] in repr && row[i].prev == PrevOf(row, i) && row[i].next == NextOf(row, i)
    }

    ghost predicate Links(row: seq<Item<T>>)
      reads this`repr, repr
    {
      forall i | 0 <= i < |row| :: LinkedAt(row, i)
    }

    ghost predicate Valid()
      reads this, repr
    {
      && items == |nodes|
      && first == (if nodes == [] then null else nodes[0])
      && last == (if nodes == [] then null else nodes[|nodes| - 1])
      && Distinct(nodes) && Links(nodes)
    }

    /** The payloads in order. */
    ghost function Contents(): (s: seq<T>)
      reads this
      ensures |s| == |nodes|
    {
      Payloads(nodes)
    }

    /** list_init. */
    constructor ()
      ensures Valid() && Contents() == [] && nodes == [] && repr == {}
    {
      items, first, last, nodes, repr := 0, null, null, [], {};
    }

    /** list_add: append, and return the index of the new item. */
    method Add(payload: T) returns (index: nat)
      requires Valid()
      modifies this, repr
      ensures Valid() && Contents() == old(Contents()) + [payload] && index == |old(Contents())|
      ensures fresh(repr - old(repr))
    {
      if nodes != [] { assert LinkedAt(nodes, |nodes| - 1); }
      var item := new Item(payload, last);
      if last != null {
        last.next := item;
      } else {
        first := item;
      }
      last := item;
      items := items + 1;
      nodes, repr := nodes + [item], repr + {item};
      forall i | 0 <= i < |nodes|
        ensures LinkedAt(nodes, i)
      {
        if i < |nodes| - 1 { assert old(LinkedAt(nodes, i)); }
      }
      return items - 1;
    }

    /** list_get_index. */
    method GetIndex(index: nat) returns (item: Item?<T>)
      requires Valid()
      ensures item == if index < |nodes| then nodes[index] else null
    {
      var i := 0;
      item := first;
      while item != null
        invariant i <= |nodes| && i <= index && item == if i < |nodes| then nodes[i] else null
        decreases |nodes| - i
      {
        if i == index {
          return;
        }
        assert LinkedAt(nodes, i);
        item, i := item.next, i + 1;
      }
    }

    /** list_find: the first item with the given payload. */
    method Find(x: T) returns (it: Item?<T>)
      requires Valid()
      ensures var k := IndexOf(Contents(), x);
        it == if k < |nodes| then nodes[k] else null
    {
      ghost var k := 0;
      it := first;
      while it != null
        invariant k <= |nodes| && it == (if k < |nodes| then nodes[k] else null)
        invariant x !in Contents()[..k]
        decreases |nodes| - k
      {
        if it.payload == x {
          assert Contents()[k] == x;
          FirstIs(Contents(), x, k);
          return;
        }
        assert Contents()[..k + 1] == Contents()[..k] + [Contents()[k]];
        assert LinkedAt(nodes, k);
        it, k := it.next, k + 1;
      }
      assert Contents()[..k] == Contents();
    }

    /** list_it_remove of an item of this list. */
    method ItRemove(item: Item<T>, ghost k: nat)
      requires Valid() && k < |nodes| && nodes[k] == item
      modifies this, repr
      ensures Valid() && nodes == RemoveAt(old(nodes), k) && Contents() == RemoveAt(old(Contents()), k)
      ensures repr == old(repr)
    {
      Unhook(item, k);
      if first == item {
        first := item.next;
      }
      if last == item {
        last := item.prev;
      }
      items := items - 1;
      DropNode(k);
    }

    /** The abstract side of a removal, once the links go round item k. */
    ghost method DropNode(k: nat)
      requires k < |nodes| && Distinct(nodes)
      requires forall i | 0 <= i < |nodes| && i != k :: Bypassed(nodes, i, k)
      requires items == |nodes| - 1
      requires first == (if k > 0 then nodes[0] else NextOf(nodes, k))
      requires last == (if k + 1 < |nodes| then nodes[|nodes| - 1] else PrevOf(nodes, k))
      modifies this`nodes
      ensures Valid() && nodes == RemoveAt(old(nodes), k) && Contents() == RemoveAt(old(Contents()), k)
    {
      RemovedLinks(nodes, k);
      RemovedDistinct(nodes, k);
      RemovedPayloads(nodes, k);
      nodes := RemoveAt(nodes, k);
    }

    lemma RemovedLinks(row: seq<Item<T>>, k: nat)
      requires k < |row| && forall i | 0 <= i < |row| && i != k :: Bypassed(row, i, k)
      ensures Links(RemoveAt(row, k))
    {
      var r := RemoveAt(row, k);
      forall i | 0 <= i < |r|
        ensures LinkedAt(r, i)
      {
        RemovedAt(row, k, i);
        assert Bypassed(row, if i < k then i else i + 1, k);
      }
    }

    /** The links of item i when item k has been taken out between its neighbours. */
    ghost predicate Bypassed(row: seq<Item<T>>, i: int, k: int)
      reads this`repr, repr
    {
      && 0 <= i < |row| && row[i] in repr
      && row[i].prev == PrevOf(row, if i == k + 1 then k else i)
      && row[i].next == NextOf(row, if i == k - 1 then k else i)
    }

    /** The neighbours of an item are linked to each other. */
    method Unhook(item: Item<T>, ghost k: nat)
      requires Valid() && k < |nodes| && nodes[k] == item
      modifies repr
      ensures forall i | 0 <= i < |nodes| && i != k :: Bypassed(nodes, i, k)
      ensures item.prev == PrevOf(nodes, k) && item.next == NextOf(nodes, k)
    {
      assert LinkedAt(nodes, k);
      if item.prev != null {
        assert LinkedAt(nodes, k - 1);
        item.prev.next := item.next;
      }
      if item.next != null {
        assert old(LinkedAt(nodes, k + 1));
        item.next.prev := item.prev;
      }
      forall i | 0 <= i < |nodes| && i != k
        ensures Bypassed(nodes, i, k)
      {
        assert old(LinkedAt(nodes, i));
      }
    }

    /** list_rotate: the first item goes to the end. */
    method RotateFront()
      requires Valid()
      modifies this, repr
      ensures Valid() && nodes == Rotate(old(nodes)) && Contents() == Rotate(old(Contents()))
      ensures repr == old(repr)
    {
      if items < 2 {
        return;
      }
      assert LinkedAt(nodes, 0) && LinkedAt(nodes, 1) && LinkedAt(nodes, |nodes| - 1);
      var item := first;
      item.next.prev := null;
      item.prev := last;
      first := item.next;
      item.next := null;
      last.next := item;
      last := item;
      RotatedPayloads(nodes);
      nodes := Rotate(nodes);
      forall i | 0 <= i < |nodes|
        ensures LinkedAt(nodes, i)
      {
        var o := if i + 1 < |nodes| then i + 1 else 0;
        assert nodes[i] == old(nodes)[o] && old(LinkedAt(nodes, o));
      }
    }
  }

  /** Who is next to whom once item k is gone. */
  lemma RemovedAt<T>(nodes: seq<Item<T>>, k: nat, i: nat)
    requires k < |nodes| && i < |nodes| - 1
    ensures var r := RemoveAt(nodes, k);
      var o := if i < k then i else i + 1;
      && |r| == |nodes| - 1 && r[i] == nodes[o]
      && PrevOf(r, i) == PrevOf(nodes, if o == k + 1 then k else o)
      && NextOf(r, i) == NextOf(nodes, if o == k - 1 then k else o)
  {
  }

  lemma RemovedDistinct<T>(nodes: seq<Item<T>>, k: nat)
    requires k < |nodes| && Distinct(nodes)
    ensures Distinct(RemoveAt(nodes, k))
  {
  }

  lemma RemovedPayloads<T>(nodes: seq<Item<T>>, k: nat)
    requires k < |nodes|
    ensures Payloads(RemoveAt(nodes, k)) == RemoveAt(Payloads(nodes), k)
  {
  }

  lemma RotatedPayloads<T>(nodes: seq<Item<T>>)
    requires Distinct(nodes)
    ensures Payloads(Rotate(nodes)) == Rotate(Payloads(nodes)) && Distinct(Rotate(nodes))
  {
  }

  lemma FirstIs<T>(s: seq<T>, x: T, k: nat)
    requires k < |s| && s[k] == x && x !in s[..k]
    ensures IndexOf(s, x) == k
  {
    if k > 0 {
      assert s[0] in s[..k];
      assert s[1..][..k - 1] == s[..k][1..];
      FirstIs(s[1..], x, k - 1);
    }
  }
}
