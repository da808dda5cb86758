/**
 * An array deque that can report its largest item under a comparator. The
 * Java class extends `ArrayDeque`; here it holds one.
 */
module MaxArrayDeques {
  import opened Wrappers
  import opened ArrayDeques

  /** `compare(a, b)`: negative, zero or positive as `a` is below, level with or above `b`. */
  type Comparator<!T> = (T, T) -> int

  /**
   * The `Comparator` contract on the items of `s`: the sign flips when the
   * arguments are swapped, and "not above" is transitive.
   */
  ghost predicate IsComparatorOn<T>(s: seq<T>, c: Comparator<T>)
  {
    && (forall i, j :: 0 <= i < |s| && 0 <= j < |s| ==> (c(s[i], s[j]) > 0 <==> c(s[j], s[i]) < 0))
    && (forall i, j, l :: 0 <= i < |s| && 0 <= j < |s| && 0 <= l < |s| && c(s[i], s[j]) <= 0 && c(s[j], s[l]) <= 0 ==> c(s[i], s[l]) <= 0)
  }

  /** `s[k]` is not below any item of `s`, and every item before it is strictly below it. */
  ghost predicate IsFirstMax<T>(s: seq<T>, k: int, c: Comparator<T>)
  {
    && 0 <= k < |s|
    && (forall j :: 0 <= j < |s| ==> c(s[j], s[k]) <= 0)
    && (forall j :: 0 <= j < k ==> c(s[j], s[k]) < 0)
  }

  class MaxArrayDeque<T(==)> {
    const deque: ArrayDeque<T>
    const comparator: Comparator<T>

    constructor (c: Comparator<T>)
      ensures fresh(deque) && fresh(deque.buffer) && deque.Valid() && deque.Contents == []
      ensures comparator == c
    {
      deque := new ArrayDeque();
      comparator := c;
    }

    /**
     * `max(c)`: `None` on an empty deque; otherwise an item of the deque,
     * and, for a comparator that keeps its contract on the items, the first
     * item that no other item is above. Scans with the deque's iterator, replacing the
     * candidate only by an item strictly above it.
     */
    method MaxBy(c: Comparator<T>) returns (max: Option<T>)
      requires deque.Valid()
      ensures deque.Contents == [] <==> max == None
      ensures max.Some? ==> max.value in deque.Contents
      ensures max.Some? && IsComparatorOn(deque.Contents, c) ==>
                exists k :: IsFirstMax(deque.Contents, k, c) && max.value == deque.Contents[k]
    {
      if deque.IsEmpty() {
        return None;
      }
      ghost var items := deque.Contents;
      max := deque.Get(0);
      ghost var k := 0;
      var iter := deque.Iterator();
      while iter.HasNext()
        invariant iter.deque == deque && 0 <= iter.pos <= |items|
        invariant 0 <= k < |items| && max == Some(items[k]) && (k < iter.pos || k == 0)
        invariant IsComparatorOn(items, c) ==> forall j :: 0 <= j < iter.pos ==> c(items[j], items[k]) <= 0
        invariant IsComparatorOn(items, c) ==> forall j :: 0 <= j < k ==> c(items[j], items[k]) < 0
        decreases |items| - iter.pos
      {
        var item := iter.Next();
        if c(item.value, max.value) > 0 {
          max := item;
          k := iter.pos - 1;
        }
      }
      assert IsComparatorOn(items, c) ==> IsFirstMax(items, k, c);
    }

    /** `max()`: `max(c)` with the comparator given at construction. */
    method Max() returns (max: Option<T>)
      requires deque.Valid()
      ensures deque.Contents == [] <==> max == None
      ensures max.Some? ==> max.value in deque.Contents
      ensures max.Some? && IsComparatorOn(deque.Contents, comparator) ==>
                exists k :: IsFirstMax(deque.Contents, k, comparator) && max.value == deque.Contents[k]
    {
      max := MaxBy(comparator);
    }
  }
}
