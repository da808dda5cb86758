/**
 * A double-ended queue stored in a circular doubly-linked list: a sentinel
 * node whose `next` is the first item node and whose `prev` is the last.
 */
module LinkedListDeques {
  import opened Wrappers
  import ArrayDeques

  /** No element occurs twice. */
  ghost predicate Distinct<X>(s: seq<X>)
  {
    forall i, j :: 0 <= i < j < |s| ==> s[i] != s[j]
  }

  /** A new element in front of distinct ones keeps them distinct. */
  lemma DistinctCons<X>(x: X, s: seq<X>)
    requires Distinct(s) && x !in s
    ensures Distinct([x] + s)
  {
  }

  /** A new element behind distinct ones keeps them distinct. */
  lemma DistinctSnoc<X>(s: seq<X>, x: X)
    requires Distinct(s) && x !in s
    ensures Distinct(s + [x])
  {
  }

  /** A list node; the sentinel holds no item. */
  class Node<T> {
    var prev: Node?<T>
    /** Set when the node is made and never reassigned. */
    const item: Option<T>
    var next: Node?<T>

    /** A node holding `elem`, not yet linked to any other. */
    constructor (elem: Option<T>)
      ensures item == elem && prev == null && next == null
    {
      prev := null;
      item := elem;
      next := null;
    }
  }

  /** What `equals` may be handed: it accepts either kind of deque. */
  datatype Object<T(==)> =
    | Null
    | NotADeque
    | ArrayDequeRef(arrayDeque: ArrayDeques.ArrayDeque<T>)
    | LinkedRef(list: LinkedListDeque<T>)

  class LinkedListDeque<T(==)> {
    var sentinel: Node<T>
    var size: int
    /** The item nodes, front to back. */
    ghost var nodes: seq<Node<T>>
    /** The items, front to back. */
    ghost var Contents: seq<T>
    ghost var Repr: set<object>

    /**
     * Following `next` from the sentinel visits the item nodes in order and
     * comes back to it; `prev` retraces the same ring backwards.
     */
    ghost predicate Valid()
      reads this, Repr
    {
      && this in Repr && sentinel in Repr
      && (forall i :: 0 <= i < |nodes| ==> nodes[i] in Repr)
      && size == |nodes| == |Contents|
      && sentinel !in nodes
      && Distinct(nodes)
      && sentinel.next == (if nodes == [] then sentinel else nodes[0])
      && sentinel.prev == (if nodes == [] then sentinel else nodes[|nodes| - 1])
      && (nodes != [] ==> nodes[0].prev == sentinel && nodes[|nodes| - 1].next == sentinel)
      && (forall i :: 0 < i < |nodes| ==> nodes[i].prev == nodes[i - 1])
      && (forall i :: 0 <= i < |nodes| - 1 ==> nodes[i].next == nodes[i + 1])
      && (forall i :: 0 <= i < |nodes| ==> nodes[i].item == Some(Contents[i]))
    }

    /** An empty deque: the sentinel linked to itself. */
    constructor ()
      ensures Valid() && fresh(Repr)
      ensures Contents == []
    {
      size := 0;
      var s := new Node(None);
      s.prev := s;
      s.next := s;
      sentinel := s;
      nodes := [];
      Contents := [];
      Repr := {this, s};
    }

    /** `isEmpty`, the default method of the `Deque` interface. */
    function IsEmpty(): (empty: bool)
      reads this, Repr
      requires Valid()
      ensures empty <==> Contents == []
    {
      size == 0
    }

    function Size(): (n: int)
      reads this, Repr
      requires Valid()
      ensures n == |Contents|
    {
      size
    }

    /** Splices a node for `item` in right after the sentinel. */
    method AddFirst(item: T)
      requires Valid()
      modifies Repr
      ensures Valid() && fresh(Repr - old(Repr))
      ensures Contents == [item] + old(Contents)
      ensures nodes[1..] == old(nodes)
    {
      var first := sentinel.next;
      ghost var ns := nodes;
      var newNode := new Node(Some(item));
      newNode.prev := sentinel;
      newNode.next := first;
      first.prev := newNode;
      sentinel.next := newNode;
      size := size + 1;
      DistinctCons(newNode, nodes);
      nodes := [newNode] + nodes;
      Contents := [item] + Contents;
      Repr := Repr + {newNode};
      if ns == [] {
        assert sentinel.prev == newNode;
      } else {
        assert first == ns[0] && sentinel.prev == ns[|ns| - 1];
      }
    }

    /** Splices a node for `item` in right before the sentinel. */
    method AddLast(item: T)
      requires Valid()
      modifies Repr
      ensures Valid() && fresh(Repr - old(Repr))
      ensures Contents == old(Contents) + [item]
      ensures nodes[..|nodes| - 1] == old(nodes)
    {
      var last := sentinel.prev;
      ghost var ns := nodes;
      var newNode := new Node(Some(item));
      last.next := newNode;
      newNode.prev := last;
      newNode.next := sentinel;
      sentinel.prev := newNode;
      size := size + 1;
      DistinctSnoc(nodes, newNode);
      nodes := nodes + [newNode];
      Contents := Contents + [item];
      Repr := Repr + {newNode};
      if ns == [] {
        assert sentinel.next == newNode;
      } else {
        assert last == ns[|ns| - 1] && sentinel.next == ns[0];
      }
    }

    /** Unlinks the first item node and returns its item; `None` when empty. */
    method RemoveFirst() returns (item: Option<T>)
      requires Valid()
      modifies Repr
      ensures Valid() && Repr == old(Repr)
      ensures old(Contents) == [] ==> item == None && Contents == []
      ensures old(Contents) != [] ==>
                item == Some(old(Contents)[0]) && Contents == old(Contents)[1..] && nodes == old(nodes)[1..]
    {
      if size == 0 {
        return None;
      }
      var first := sentinel.next;
      assert first == nodes[0];
      assert first.next == if |nodes| == 1 then sentinel else nodes[1];
      sentinel.next := first.next;
      first.next.prev := sentinel;
      size := size - 1;
      nodes := nodes[1..];
      Contents := Contents[1..];
      return first.item;
    }

    /** Unlinks the last item node and returns its item; `None` when empty. */
    method RemoveLast() returns (item: Option<T>)
      requires Valid()
      modifies Repr
      ensures Valid() && Repr == old(Repr)
      ensures old(Contents) == [] ==> item == None && Contents == []
      ensures old(Contents) != [] ==>
                && item == Some(old(Contents)[|old(Contents)| - 1])
                && Contents == old(Contents)[..|old(Contents)| - 1]
                && nodes == old(nodes)[..|old(nodes)| - 1]
    {
      if size == 0 {
        return None;
      }
      var last := sentinel.prev;
      assert last == nodes[|nodes| - 1];
      assert last.prev == if |nodes| == 1 then sentinel else nodes[|nodes| - 2];
      last.prev.next := sentinel;
      sentinel.prev := last.prev;
      size := size - 1;
      nodes := nodes[..size];
      Contents := Contents[..size];
      return last.item;
    }

    /** Walks from the front to the `index`-th item; `None` when there is none (including a negative index). */
    method Get(index: int) returns (item: Option<T>)
      requires Valid()
      ensures item == if 0 <= index < |Contents| then Some(Contents[index]) else None
    {
      var pointer := sentinel.next;
      var i := 0;
      while pointer != sentinel
        invariant 0 <= i <= |nodes|
        invariant pointer == if i < |nodes| then nodes[i] else sentinel
        invariant index < 0 || i <= index
        decreases |nodes| - i
      {
        if i == index {
          return pointer.item;
        }
        pointer := pointer.next;
        i := i + 1;
      }
      return None;
    }

    /** A fresh iterator over this deque. */
    method Iterator() returns (it: LinkedListDequeIterator<T>)
      ensures fresh(it) && it.deque == this && it.pos == 0
    {
      it := new LinkedListDequeIterator(this);
    }

    /**
     * `equals`: false for `null` or a non-deque, true for the same object,
     * and otherwise true exactly when the other deque, of either class,
     * holds the same items in the same order.
     */
    method Equals(o: Object<T>) returns (r: bool)
      requires Valid()
      requires o.ArrayDequeRef? ==> o.arrayDeque.Valid()
      requires o.LinkedRef? ==> o.list.Valid()
      ensures o.Null? || o.NotADeque? ==> !r
      ensures o.ArrayDequeRef? ==> r == (Contents == o.arrayDeque.Contents)
      ensures o.LinkedRef? ==> r == (Contents == o.list.Contents)
    {
      if o.Null? || o.NotADeque? {
        return false;
      }
      if o.LinkedRef? && o.list == this {
        return true;
      }
      ghost var other := if o.ArrayDequeRef? then o.arrayDeque.Contents else o.list.Contents;
      var compSize := if o.ArrayDequeRef? then o.arrayDeque.Size() else o.list.Size();
      if size != compSize {
        return false;
      }
      for index := 0 to size
        invariant forall k :: 0 <= k < index ==> Contents[k] == other[k]
      {
        var item1 := Get(index);
        var item2;
        if o.ArrayDequeRef? {
          item2 := o.arrayDeque.Get(index);
        } else {
          item2 := o.list.Get(index);
        }
        if item1 != item2 {
          return false;
        }
      }
      return true;
    }
  }

  /** Walks a deque front to back through `get`. */
  class LinkedListDequeIterator<T(==)> {
    const deque: LinkedListDeque<T>
    var pos: int

    constructor (d: LinkedListDeque<T>)
      ensures deque == d && pos == 0
    {
      deque := d;
      pos := 0;
    }

    /** Whether `get(pos)` still reaches an item. */
    predicate HasNext(): (r: bool)
      reads this, deque, deque.Repr
      requires deque.Valid()
      ensures r <==> pos < |deque.Contents|
    {
      pos < deque.size
    }

    /** The item at the current position (through `get`); the position advances. */
    method Next() returns (item: Option<T>)
      requires deque.Valid() && 0 <= pos
      modifies this
      ensures pos == old(pos) + 1
      ensures item == if old(pos) < |deque.Contents| then Some(deque.Contents[old(pos)]) else None
    {
      item := deque.Get(pos);
      pos := pos + 1;
    }
  }
}
