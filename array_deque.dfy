/**
 * A double-ended queue stored in a circular array. `nextFirst` is the free
 * slot in front of the first item and `nextLast` the free slot behind the
 * last one; the array doubles when it fills up and halves when it becomes
 * sparse. A slot holds `None` where the Java array holds `null`.
 */
module ArrayDeques {
  import opened Wrappers

  /** Where the `i`-th item sits when the free front slot is `first` in an array of length `len`. */
  function Circular(len: int, first: int, i: int): int
    requires 0 <= first < len && 0 <= i < len
  {
    if first + 1 + i < len then first + 1 + i else first + 1 + i - len
  }

  /** The `n` slots of `a` holding items 0 .. n-1 when the free front slot is `first`. */
  function Window<T>(a: seq<Option<T>>, first: int, n: int): (w: seq<Option<T>>)
    requires 0 <= first < |a| && 0 <= n <= |a|
    ensures |w| == n
    ensures forall i :: 0 <= i < n ==> w[i] == a[Circular(|a|, first, i)]
  {
    seq(n, i requires 0 <= i < n => a[Circular(|a|, first, i)])
  }

  /** The slots of a deque holding exactly the items `s`. */
  function Present<T>(s: seq<T>): (p: seq<Option<T>>)
    ensures |p| == |s|
    ensures forall i :: 0 <= i < |s| ==> p[i] == Some(s[i])
  {
    seq(|s|, i requires 0 <= i < |s| => Some(s[i]))
  }

  /** The condition under which a removal halves the array: checked on the already decremented size. */
  predicate Shrinks(size: int, length: int)
  {
    size < length / 4 && size >= 16
  }

  /** What `equals` may be handed. */
  datatype Object<T> =
    | Null
    | NotADeque
    | OtherDeque                     // a `Deque` that is not an `ArrayDeque`
    | SameClass(deque: ArrayDeque<T>)

  /** What `equals` does: return a boolean, or throw on its unchecked cast. */
  datatype EqualsResult = Returns(value: bool) | ClassCastException

  class ArrayDeque<T(==)> {
    var buffer: array<Option<T>>
    var size: int
    var nextFirst: int
    var nextLast: int
    /** The items, front to back. */
    ghost var Contents: seq<T>

    /** The indices are in range and at most a full array of items is counted. */
    ghost predicate Indexed()
      reads this
    {
      0 <= nextFirst < buffer.Length && 0 <= nextLast < buffer.Length && 0 <= size <= buffer.Length
    }

    /** The slots of the items, front to back, as the indices describe them. */
    function Slots(): seq<Option<T>>
      reads this, buffer
      requires Indexed()
    {
      Window(buffer[..], nextFirst, size)
    }

    /**
     * Between operations the array is never full, the items sit in the `size`
     * slots after `nextFirst`, and `nextLast` is the slot right after them.
     */
    ghost predicate Valid()
      reads this, buffer
    {
      && Indexed()
      && size < buffer.Length
      && size == |Contents|
      && (forall i :: 0 <= i < size ==> buffer[Circular(buffer.Length, nextFirst, i)] == Some(Contents[i]))
      && nextLast == Circular(buffer.Length, nextFirst, size)
    }

    /** An empty deque: eight slots, the front free slot at the end and the back free slot at the start. */
    constructor ()
      ensures Valid() && fresh(buffer)
      ensures Contents == []
      ensures buffer.Length == 8 && size == 0 && nextFirst == 7 && nextLast == 0
    {
      var slots := new Option<T>[8](_ => None);
      buffer := slots;
      size := 0;
      nextLast := 0;
      nextFirst := slots.Length - 1;
      Contents := [];
    }

    /** `isEmpty`, the default method of the `Deque` interface. */
    function IsEmpty(): (empty: bool)
      reads this, buffer
      requires Valid()
      ensures empty <==> Contents == []
    {
      size == 0
    }

    function Size(): (n: int)
      reads this, buffer
      requires Valid()
      ensures n == |Contents|
    {
      size
    }

    /** Puts `item` at the front; a full array is then doubled. */
    method AddFirst(item: T)
      requires Valid()
      modifies this, buffer
      ensures Valid() && (buffer == old(buffer) || fresh(buffer))
      ensures Contents == [item] + old(Contents)
      ensures buffer.Length == if old(size) + 1 == old(buffer.Length) then 2 * old(buffer.Length) else old(buffer.Length)
    {
      buffer[nextFirst] := Some(item);
      DecrementFirstIndex();
      size := size + 1;
      Contents := [item] + Contents;
      forall i | 0 < i < size
        ensures buffer[Circular(buffer.Length, nextFirst, i)] == Some(Contents[i])
      {
        CircularStep(buffer.Length, nextFirst, i - 1);
      }
      if size == buffer.Length {
        Resize(buffer.Length * 2);
      }
    }

    /** Puts `item` at the back; a full array is then doubled. */
    method AddLast(item: T)
      requires Valid()
      modifies this, buffer
      ensures Valid() && (buffer == old(buffer) || fresh(buffer))
      ensures Contents == old(Contents) + [item]
      ensures buffer.Length == if old(size) + 1 == old(buffer.Length) then 2 * old(buffer.Length) else old(buffer.Length)
    {
      buffer[nextLast] := Some(item);
      IncrementLastIndex();
      size := size + 1;
      Contents := Contents + [item];
      if size == buffer.Length {
        Resize(buffer.Length * 2);
      }
    }

    /**
     * `removeFirst` as written: the size is decremented and the array possibly
     * halved before the front index moves. Without the halving it removes and
     * returns the front item. With it, the copy has already left out the last
     * item, so the deque loses its back item, ends with an empty slot, and
     * `nextLast` no longer follows the items.
     */
    method RemoveFirst() returns (item: Option<T>)
      requires Valid()
      modifies this
      ensures old(size) == 0 ==> item == None && unchanged(this)
      ensures old(size) > 0 ==> item == Some(old(Contents)[0]) && size == old(size) - 1
      ensures old(size) > 0 && !Shrinks(old(size) - 1, old(buffer.Length)) ==>
                Valid() && Contents == old(Contents)[1..] && buffer == old(buffer)
      ensures old(size) > 0 && Shrinks(old(size) - 1, old(buffer.Length)) ==>
                && fresh(buffer) && buffer.Length == old(buffer.Length) / 2 && Indexed()
                && Slots() == Present(old(Contents)[1..old(size) - 1]) + [None]
                && nextLast == size && nextLast != Circular(buffer.Length, nextFirst, size)
    {
      if size == 0 {
        return None;
      }
      ghost var items := Contents;
      size := size - 1;
      KeptWindow(buffer[..], items, nextFirst, size);
      ghost var shrunk := Shrinks(size, buffer.Length);
      if Shrinks(size, buffer.Length) {
        Resize(buffer.Length / 2);
      }
      IncrementFirstIndex();
      item := buffer[nextFirst];
      Contents := Contents[1..];
      if shrunk {
        ShrunkWindow(buffer[..], items, size);
        assert buffer[..size][0] == Some(items[0]);
      } else {
        forall i | 0 <= i < size
          ensures buffer[Circular(buffer.Length, nextFirst, i)] == Some(Contents[i])
        {
          CircularStep(buffer.Length, old(nextFirst), i);
        }
        CircularStep(buffer.Length, old(nextFirst), size);
      }
    }

    /**
     * `removeLast` as written: without the halving it removes and returns the
     * back item; with it, the copy has already left out the back item, so the
     * item returned is the one before it, while `nextLast` is left on that
     * item's slot.
     */
    method RemoveLast() returns (item: Option<T>)
      requires Valid()
      modifies this
      ensures old(size) == 0 ==> item == None && unchanged(this)
      ensures old(size) > 0 ==> size == old(size) - 1
      ensures old(size) > 0 && !Shrinks(old(size) - 1, old(buffer.Length)) ==>
                && Valid() && item == Some(old(Contents)[old(size) - 1])
                && Contents == old(Contents)[..old(size) - 1] && buffer == old(buffer)
      ensures old(size) > 0 && Shrinks(old(size) - 1, old(buffer.Length)) ==>
                && fresh(buffer) && buffer.Length == old(buffer.Length) / 2 && Indexed()
                && item == Some(old(Contents)[old(size) - 2])
                && Slots() == Present(old(Contents)[..old(size) - 1])
                && nextLast == size - 1 && nextLast != Circular(buffer.Length, nextFirst, size)
    {
      if size == 0 {
        return None;
      }
      ghost var items := Contents;
      size := size - 1;
      KeptWindow(buffer[..], items, nextFirst, size);
      ghost var shrunk := Shrinks(size, buffer.Length);
      if Shrinks(size, buffer.Length) {
        Resize(buffer.Length / 2);
      }
      DecrementLastIndex();
      item := buffer[nextLast];
      Contents := Contents[..size];
      if shrunk {
        WindowFromEnd(buffer[..], size);
        assert buffer[..size][size - 1] == Some(items[size - 1]);
      } else {
        CircularBack(buffer.Length, nextFirst, nextLast, size);
      }
    }

    /** `removeFirst` with the index moved and the item taken before the size shrinks. */
    method RemoveFirstCorrected() returns (item: Option<T>)
      requires Valid()
      modifies this
      ensures Valid() && (buffer == old(buffer) || fresh(buffer))
      ensures old(Contents) == [] ==> item == None && Contents == []
      ensures old(Contents) != [] ==> item == Some(old(Contents)[0]) && Contents == old(Contents)[1..]
    {
      if size == 0 {
        return None;
      }
      IncrementFirstIndex();
      item := buffer[nextFirst];
      size := size - 1;
      Contents := Contents[1..];
      forall i | 0 <= i < size
        ensures buffer[Circular(buffer.Length, nextFirst, i)] == Some(Contents[i])
      {
        CircularStep(buffer.Length, old(nextFirst), i);
      }
      if Shrinks(size, buffer.Length) {
        KeptWindow(buffer[..], Contents, nextFirst, size);
        Resize(buffer.Length / 2);
        FromStart(buffer[..], Contents);
      }
    }

    /** `removeLast` with the index moved and the item taken before the size shrinks. */
    method RemoveLastCorrected() returns (item: Option<T>)
      requires Valid()
      modifies this
      ensures Valid() && (buffer == old(buffer) || fresh(buffer))
      ensures old(Contents) == [] ==> item == None && Contents == []
      ensures old(Contents) != [] ==>
                item == Some(old(Contents)[|old(Contents)| - 1]) && Contents == old(Contents)[..|old(Contents)| - 1]
    {
      if size == 0 {
        return None;
      }
      DecrementLastIndex();
      CircularBack(buffer.Length, nextFirst, nextLast, size - 1);
      item := buffer[nextLast];
      size := size - 1;
      Contents := Contents[..size];
      if Shrinks(size, buffer.Length) {
        KeptWindow(buffer[..], Contents, nextFirst, size);
        Resize(buffer.Length / 2);
        FromStart(buffer[..], Contents);
      }
    }

    /** The item at `index`, or `None` when there is none; the deque is not changed. */
    function Get(index: int): (item: Option<T>)
      reads this, buffer
      requires Valid() && index >= 0
      ensures item == if index < |Contents| then Some(Contents[index]) else None
    {
      if IsEmpty() || index >= size then None
      else buffer[AdjustedIndex(index)]
    }

    /** A fresh iterator over this deque. */
    method Iterator() returns (it: ArrayDequeIterator<T>)
      ensures fresh(it) && it.deque == this && it.pos == 0
    {
      it := new ArrayDequeIterator(this);
    }

    /**
     * `equals`: false for `null` or a non-deque, an exception for a deque of
     * another class, and otherwise true exactly when both hold the same items
     * in the same order.
     */
    method Equals(o: Object<T>) returns (r: EqualsResult)
      requires Valid()
      requires o.SameClass? ==> o.deque.Valid()
      ensures o.Null? || o.NotADeque? ==> r == Returns(false)
      ensures o.OtherDeque? ==> r == ClassCastException
      ensures o.SameClass? ==> r == Returns(Contents == o.deque.Contents)
    {
      if o.Null? || o.NotADeque? {
        return Returns(false);
      }
      if o.OtherDeque? {
        return ClassCastException;
      }
      var comp := o.deque;
      if this == comp {
        return Returns(true);
      }
      if size != comp.size {
        return Returns(false);
      }
      var compIter := comp.Iterator();
      var iter := Iterator();
      while iter.HasNext()
        invariant iter.deque == this && compIter.deque == comp && iter != compIter
        invariant 0 <= iter.pos == compIter.pos <= size
        invariant Contents[..iter.pos] == comp.Contents[..iter.pos]
        decreases size - iter.pos
      {
        var item := iter.Next();
        var other := compIter.Next();
        if item != other {
          return Returns(false);
        }
        assert Contents[..iter.pos] == Contents[..iter.pos - 1] + [Contents[iter.pos - 1]];
        assert comp.Contents[..iter.pos] == comp.Contents[..iter.pos - 1] + [comp.Contents[iter.pos - 1]];
      }
      assert Contents == Contents[..size] && comp.Contents == comp.Contents[..size];
      return Returns(true);
    }

    /** Moves `nextLast` one slot on, wrapping from the end of the array to its start. */
    method IncrementLastIndex()
      requires 0 <= nextLast < buffer.Length
      modifies this
      ensures buffer == old(buffer) && size == old(size) && nextFirst == old(nextFirst) && Contents == old(Contents)
      ensures nextLast == Circular(buffer.Length, old(nextLast), 0)
    {
      if nextLast == buffer.Length - 1 {
        nextLast := 0;
      } else {
        nextLast := nextLast + 1;
      }
    }

    /** Moves `nextLast` one slot back, wrapping from the start of the array to its end. */
    method DecrementLastIndex()
      requires 0 <= nextLast < buffer.Length
      modifies this
      ensures buffer == old(buffer) && size == old(size) && nextFirst == old(nextFirst) && Contents == old(Contents)
      ensures 0 <= nextLast < buffer.Length && old(nextLast) == Circular(buffer.Length, nextLast, 0)
    {
      if nextLast == 0 {
        nextLast := buffer.Length - 1;
      } else {
        nextLast := nextLast - 1;
      }
    }

    /** Moves `nextFirst` one slot on, wrapping from the end of the array to its start. */
    method IncrementFirstIndex()
      requires 0 <= nextFirst < buffer.Length
      modifies this
      ensures buffer == old(buffer) && size == old(size) && nextLast == old(nextLast) && Contents == old(Contents)
      ensures nextFirst == Circular(buffer.Length, old(nextFirst), 0)
    {
      if nextFirst == buffer.Length - 1 {
        nextFirst := 0;
      } else {
        nextFirst := nextFirst + 1;
      }
    }

    /** Moves `nextFirst` one slot back, wrapping from the start of the array to its end. */
    method DecrementFirstIndex()
      requires 0 <= nextFirst < buffer.Length
      modifies this
      ensures buffer == old(buffer) && size == old(size) && nextLast == old(nextLast) && Contents == old(Contents)
      ensures 0 <= nextFirst < buffer.Length && old(nextFirst) == Circular(buffer.Length, nextFirst, 0)
    {
      if nextFirst == 0 {
        nextFirst := buffer.Length - 1;
      } else {
        nextFirst := nextFirst - 1;
      }
    }

    /** The array slot of the `n`-th item: the circular position after `nextFirst`. */
    function AdjustedIndex(n: int): (k: int)
      reads this
      requires 0 <= nextFirst < buffer.Length && 0 <= n < buffer.Length
      ensures k == Circular(buffer.Length, nextFirst, n)
    {
      var start := nextFirst + 1;
      ModOfSmall(start + n, buffer.Length);
      (start + n) % buffer.Length
    }

    /**
     * Copies the items into a fresh array of `capacity` slots, from slot 0 on,
     * with the free front slot at its end and the free back slot right after the items.
     */
    method Resize(capacity: int)
      requires Indexed() && size < capacity
      modifies this
      ensures fresh(buffer) && buffer.Length == capacity
      ensures size == old(size) && Contents == old(Contents)
      ensures buffer[..size] == old(Slots())
      ensures forall i :: size <= i < capacity ==> buffer[i] == None
      ensures nextFirst == capacity - 1 && nextLast == size
    {
      ghost var window := Slots();
      var a := new Option<T>[capacity](_ => None);
      for i := 0 to size
        invariant buffer == old(buffer) && nextFirst == old(nextFirst) && size == old(size) && Contents == old(Contents)
        invariant forall j :: 0 <= j < i ==> a[j] == window[j]
        invariant forall j :: size <= j < capacity ==> a[j] == None
      {
        a[i] := buffer[AdjustedIndex(i)];
      }
      assert a[..size] == window;
      nextLast := size;
      nextFirst := a.Length - 1;
      buffer := a;
    }
  }

  /** The slot after the first one from `first` is the first one from the slot after `first`. */
  lemma CircularStep(len: int, first: int, i: int)
    requires 0 <= first < len && 0 <= i < len - 1
    ensures Circular(len, first, i + 1) == Circular(len, Circular(len, first, 0), i)
  {
  }

  /** The first `n` of the slots holding `items` hold the first `n` items. */
  lemma KeptWindow<T>(a: seq<Option<T>>, items: seq<T>, first: int, n: int)
    requires 0 <= first < |a| && 0 <= n <= |items| <= |a|
    requires forall i :: 0 <= i < |items| ==> a[Circular(|a|, first, i)] == Some(items[i])
    ensures Window(a, first, n) == Present(items[..n])
  {
  }

  /** Items copied to the start of an array sit where a free front slot at its end puts them. */
  lemma FromStart<T>(a: seq<Option<T>>, items: seq<T>)
    requires |items| < |a| && a[..|items|] == Present(items)
    ensures forall i :: 0 <= i < |items| ==> a[Circular(|a|, |a| - 1, i)] == Some(items[i])
  {
    forall i | 0 <= i < |items|
      ensures a[Circular(|a|, |a| - 1, i)] == Some(items[i])
    {
      assert a[i] == a[..|items|][i];
    }
  }

  /** In an array whose free front slot is its last one, the items start at slot 0. */
  lemma WindowFromEnd<T>(a: seq<Option<T>>, n: int)
    requires 0 <= n < |a|
    ensures Window(a, |a| - 1, n) == a[..n]
  {
  }

  /**
   * After a halving that copied `n` of the `n + 1` items to the start of the
   * new array, with the free front slot moved on to slot 0: the window shows
   * items 1 .. n-1 and then an empty slot.
   */
  lemma ShrunkWindow<T>(a: seq<Option<T>>, items: seq<T>, n: int)
    requires 0 < n && n + 1 < |a| && |items| == n + 1
    requires a[..n] == Present(items[..n])
    requires forall i :: n <= i < |a| ==> a[i] == None
    ensures Window(a, 0, n) == Present(items[1..n]) + [None]
  {
    var w := Window(a, 0, n);
    var p := Present(items[1..n]) + [None];
    forall i | 0 <= i < n
      ensures w[i] == p[i]
    {
      if i < n - 1 {
        assert w[i] == a[..n][i + 1];
      }
    }
  }

  /** The slot before the one after the first `n + 1` items is the one after the first `n`. */
  lemma CircularBack(len: int, first: int, last: int, n: int)
    requires 0 <= first < len && 0 <= last < len && 0 <= n && n + 1 < len
    requires Circular(len, last, 0) == Circular(len, first, n + 1)
    ensures last == Circular(len, first, n)
  {
  }

  /** Java's `%` on a non-negative value below twice the modulus. */
  lemma ModOfSmall(k: int, len: int)
    requires 0 <= k < 2 * len
    ensures k % len == if k < len then k else k - len
  {
    if k >= len {
      assert k == len + (k - len);
    }
  }

  /** Walks a deque front to back through `get`. */
  class ArrayDequeIterator<T(==)> {
    const deque: ArrayDeque<T>
    var pos: int

    constructor (d: ArrayDeque<T>)
      ensures deque == d && pos == 0
    {
      deque := d;
      pos := 0;
    }

    /** Whether `get(pos)` still reaches an item. */
    predicate HasNext(): (r: bool)
      reads this, deque, deque.buffer
      requires deque.Valid()
      ensures r <==> pos < |deque.Contents|
    {
      pos < deque.size
    }

    /** The item at the current position (through `get`); the position advances. */
    method Next() returns (item: Option<T>)
      requires deque.Valid() && 0 <= pos
      modifies this
      ensures pos == old(pos) + 1
      ensures item == if old(pos) < |deque.Contents| then Some(deque.Contents[old(pos)]) else None
    {
      item := deque.Get(pos);
      pos := pos + 1;
    }
  }
}
