/**
 * The deque unit tests as proved scenarios: each method builds fresh deques,
 * issues the test's calls, and states what every call returns.
 */
module DequeScenarios {
  import opened Wrappers
  import opened DequeContract
  import opened ArrayDeques
  import opened LinkedListDeques
  import opened MaxArrayDeques

  /**
   * The randomized comparison: a linked-list deque and an array deque are
   * sent the same operations, a removal only when the deques are not empty.
   * Both return the same items, which are the ones the deque contract
   * predicts. The array deque uses the removals with the corrected order;
   * `RandomizedComparisonAsWritten` below uses the removals as written.
   */
  method RandomizedComparison(ops: seq<Op<int>>) returns (fromList: seq<int>, fromArray: seq<int>)
    ensures fromList == fromArray == Returned([], ops)
  {
    var linked := new LinkedListDeque<int>();
    var arr := new ArrayDeque<int>();
    fromList, fromArray := [], [];
    for i := 0 to |ops|
      invariant linked.Valid() && fresh(linked.Repr)
      invariant arr.Valid() && fresh(arr) && fresh(arr.buffer)
      invariant arr !in linked.Repr && arr.buffer !in linked.Repr
      invariant linked.Contents == arr.Contents == Final([], ops[..i])
      invariant fromList == fromArray == Returned([], ops[..i])
    {
      ReplaySnoc([], ops[..i], ops[i]);
      assert ops[..i + 1] == ops[..i] + [ops[i]];
      var fromLinked, fromArr := Step(linked, arr, ops[i]);
      if fromLinked.Some? {
        fromList := fromList + [fromLinked.value];
        fromArray := fromArray + [fromArr.value];
      }
    }
    assert ops[..|ops|] == ops;
  }

  /** One operation of the randomized comparison, sent to both deques; a removal is skipped when they are empty. */
  method Step(linked: LinkedListDeque<int>, arr: ArrayDeque<int>, op: Op<int>) returns (fromLinked: Option<int>, fromArr: Option<int>)
    requires linked.Valid() && arr.Valid() && linked.Contents == arr.Contents
    requires arr !in linked.Repr && arr.buffer !in linked.Repr
    modifies linked.Repr, arr, arr.buffer
    ensures linked.Valid() && fresh(linked.Repr - old(linked.Repr))
    ensures arr.Valid() && (arr.buffer == old(arr.buffer) || fresh(arr.buffer))
    ensures arr !in linked.Repr && arr.buffer !in linked.Repr
    ensures linked.Contents == Apply(old(linked.Contents), op).0 && fromLinked == Apply(old(linked.Contents), op).1
    ensures arr.Contents == linked.Contents && fromArr == fromLinked
  {
    if op.AddLast? || op.AddFirst? {
      StepAdd(linked, arr, op);
      fromLinked, fromArr := None, None;
    } else {
      fromLinked, fromArr := StepRemove(linked, arr, op);
    }
  }

  method StepAdd(linked: LinkedListDeque<int>, arr: ArrayDeque<int>, op: Op<int>)
    requires op.AddLast? || op.AddFirst?
    requires linked.Valid() && arr.Valid() && linked.Contents == arr.Contents
    requires arr !in linked.Repr && arr.buffer !in linked.Repr
    modifies linked.Repr, arr, arr.buffer
    ensures linked.Valid() && fresh(linked.Repr - old(linked.Repr))
    ensures arr.Valid() && (arr.buffer == old(arr.buffer) || fresh(arr.buffer))
    ensures arr !in linked.Repr && arr.buffer !in linked.Repr
    ensures linked.Contents == arr.Contents == Apply(old(linked.Contents), op).0
  {
    if op.AddLast? {
      AddLastBoth(linked, arr, op.x);
    } else {
      AddFirstBoth(linked, arr, op.x);
    }
  }

  /** `addLast` of `x` on both deques. */
  method AddLastBoth(linked: LinkedListDeque<int>, arr: ArrayDeque<int>, x: int)
    requires linked.Valid() && arr.Valid() && linked.Contents == arr.Contents
    requires arr !in linked.Repr && arr.buffer !in linked.Repr
    modifies linked.Repr, arr, arr.buffer
    ensures linked.Valid() && fresh(linked.Repr - old(linked.Repr))
    ensures arr.Valid() && (arr.buffer == old(arr.buffer) || fresh(arr.buffer))
    ensures arr !in linked.Repr && arr.buffer !in linked.Repr
    ensures linked.Contents == arr.Contents == old(linked.Contents) + [x]
  {
    linked.AddLast(x);
    arr.AddLast(x);
  }

  /** `addFirst` of `x` on both deques. */
  method AddFirstBoth(linked: LinkedListDeque<int>, arr: ArrayDeque<int>, x: int)
    requires linked.Valid() && arr.Valid() && linked.Contents == arr.Contents
    requires arr !in linked.Repr && arr.buffer !in linked.Repr
    modifies linked.Repr, arr, arr.buffer
    ensures linked.Valid() && fresh(linked.Repr - old(linked.Repr))
    ensures arr.Valid() && (arr.buffer == old(arr.buffer) || fresh(arr.buffer))
    ensures arr !in linked.Repr && arr.buffer !in linked.Repr
    ensures linked.Contents == arr.Contents == [x] + old(linked.Contents)
  {
    linked.AddFirst(x);
    arr.AddFirst(x);
  }

  method StepRemove(linked: LinkedListDeque<int>, arr: ArrayDeque<int>, op: Op<int>) returns (fromLinked: Option<int>, fromArr: Option<int>)
    requires op.RemoveLast? || op.RemoveFirst?
    requires linked.Valid() && arr.Valid() && linked.Contents == arr.Contents
    requires arr !in linked.Repr && arr.buffer !in linked.Repr
    modifies linked.Repr, arr
    ensures linked.Valid() && linked.Repr == old(linked.Repr)
    ensures arr.Valid() && (arr.buffer == old(arr.buffer) || fresh(arr.buffer))
    ensures arr !in linked.Repr && arr.buffer !in linked.Repr
    ensures linked.Contents == arr.Contents == Apply(old(linked.Contents), op).0
    ensures fromLinked == fromArr == Apply(old(linked.Contents), op).1
  {
    fromLinked, fromArr := None, None;
    if linked.Size() != 0 {
      if op.RemoveLast? {
        fromLinked := linked.RemoveLast();
        fromArr := arr.RemoveLastCorrected();
      } else {
        fromLinked := linked.RemoveFirst();
        fromArr := arr.RemoveFirstCorrected();
      }
    }
  }

  /**
   * The randomized comparison with the array deque's removals as written. It
   * stops before the first removal that would halve the array, which needs at
   * least 17 items; up to there both deques return the same items, the ones
   * the deque contract predicts.
   */
  method RandomizedComparisonAsWritten(ops: seq<Op<int>>) returns (fromList: seq<int>, fromArray: seq<int>, done: nat)
    ensures done <= |ops|
    ensures fromList == fromArray == Returned([], ops[..done])
    ensures done < |ops| ==> (ops[done].RemoveFirst? || ops[done].RemoveLast?) && |Final([], ops[..done])| >= 17
  {
    var linked := new LinkedListDeque<int>();
    var arr := new ArrayDeque<int>();
    fromList, fromArray, done := [], [], 0;
    while done < |ops|
      invariant done <= |ops|
      invariant linked.Valid() && fresh(linked.Repr)
      invariant arr.Valid() && fresh(arr) && fresh(arr.buffer)
      invariant arr !in linked.Repr && arr.buffer !in linked.Repr
      invariant linked.Contents == arr.Contents == Final([], ops[..done])
      invariant fromList == fromArray == Returned([], ops[..done])
    {
      var op := ops[done];
      var fromLinked, fromArr, halts := StepAsWritten(linked, arr, op);
      if halts {
        return;
      }
      ReplaySnoc([], ops[..done], op);
      assert ops[..done + 1] == ops[..done] + [op];
      if fromLinked.Some? {
        fromList := fromList + [fromLinked.value];
        fromArray := fromArray + [fromArr.value];
      }
      done := done + 1;
    }
  }

  /**
   * One operation sent to both deques with the array deque's removals as
   * written. A removal that would halve the array is not sent: `halts` is
   * set and nothing changes.
   */
  method StepAsWritten(linked: LinkedListDeque<int>, arr: ArrayDeque<int>, op: Op<int>)
    returns (fromLinked: Option<int>, fromArr: Option<int>, halts: bool)
    requires linked.Valid() && arr.Valid() && linked.Contents == arr.Contents
    requires arr !in linked.Repr && arr.buffer !in linked.Repr
    modifies linked.Repr, arr, arr.buffer
    ensures linked.Valid() && fresh(linked.Repr - old(linked.Repr))
    ensures arr.Valid() && (arr.buffer == old(arr.buffer) || fresh(arr.buffer))
    ensures arr !in linked.Repr && arr.buffer !in linked.Repr
    ensures halts ==> (op.RemoveFirst? || op.RemoveLast?) && |old(linked.Contents)| >= 17 && linked.Contents == old(linked.Contents)
    ensures !halts ==> linked.Contents == Apply(old(linked.Contents), op).0 && fromLinked == Apply(old(linked.Contents), op).1
    ensures arr.Contents == linked.Contents && fromArr == fromLinked
  {
    halts := false;
    if op.AddLast? || op.AddFirst? {
      StepAdd(linked, arr, op);
      fromLinked, fromArr := None, None;
    } else if arr.size != 0 && Shrinks(arr.size - 1, arr.buffer.Length) {
      halts := true;
      fromLinked, fromArr := None, None;
    } else {
      fromLinked, fromArr := StepRemoveAsWritten(linked, arr, op);
    }
  }

  /** A removal sent to both deques with the array deque's removals as written, when it does not halve the array. */
  method StepRemoveAsWritten(linked: LinkedListDeque<int>, arr: ArrayDeque<int>, op: Op<int>) returns (fromLinked: Option<int>, fromArr: Option<int>)
    requires op.RemoveLast? || op.RemoveFirst?
    requires linked.Valid() && arr.Valid() && linked.Contents == arr.Contents
    requires arr !in linked.Repr && arr.buffer !in linked.Repr
    requires arr.size == 0 || !Shrinks(arr.size - 1, arr.buffer.Length)
    modifies linked.Repr, arr
    ensures linked.Valid() && linked.Repr == old(linked.Repr)
    ensures arr.Valid() && arr.buffer == old(arr.buffer)
    ensures linked.Contents == arr.Contents == Apply(old(linked.Contents), op).0
    ensures fromLinked == fromArr == Apply(old(linked.Contents), op).1
  {
    fromLinked, fromArr := None, None;
    if linked.Size() != 0 {
      if op.RemoveLast? {
        fromLinked, fromArr := RemoveLastAsWritten(linked, arr);
      } else {
        fromLinked, fromArr := RemoveFirstAsWritten(linked, arr);
      }
    }
  }

  /** `removeLast` on both non-empty deques, the array's as written and not halving. */
  method RemoveLastAsWritten(linked: LinkedListDeque<int>, arr: ArrayDeque<int>) returns (fromLinked: Option<int>, fromArr: Option<int>)
    requires linked.Valid() && arr.Valid() && linked.Contents == arr.Contents != []
    requires arr !in linked.Repr && arr.buffer !in linked.Repr
    requires !Shrinks(arr.size - 1, arr.buffer.Length)
    modifies linked.Repr, arr
    ensures linked.Valid() && linked.Repr == old(linked.Repr)
    ensures arr.Valid() && arr.buffer == old(arr.buffer)
    ensures linked.Contents == arr.Contents == old(linked.Contents)[..|old(linked.Contents)| - 1]
    ensures fromLinked == fromArr == Some(old(linked.Contents)[|old(linked.Contents)| - 1])
  {
    fromLinked := linked.RemoveLast();
    fromArr := arr.RemoveLast();
  }

  /** `removeFirst` on both non-empty deques, the array's as written and not halving. */
  method RemoveFirstAsWritten(linked: LinkedListDeque<int>, arr: ArrayDeque<int>) returns (fromLinked: Option<int>, fromArr: Option<int>)
    requires linked.Valid() && arr.Valid() && linked.Contents == arr.Contents != []
    requires arr !in linked.Repr && arr.buffer !in linked.Repr
    requires !Shrinks(arr.size - 1, arr.buffer.Length)
    modifies linked.Repr, arr
    ensures linked.Valid() && linked.Repr == old(linked.Repr)
    ensures arr.Valid() && arr.buffer == old(arr.buffer)
    ensures linked.Contents == arr.Contents == old(linked.Contents)[1..]
    ensures fromLinked == fromArr == Some(old(linked.Contents)[0])
  {
    fromLinked := linked.RemoveFirst();
    fromArr := arr.RemoveFirst();
  }

  /** Removing from an empty deque of either class returns null at both ends. */
  method EmptyRemovals() returns (listFirst: Option<int>, listLast: Option<int>, arrayFirst: Option<int>, arrayLast: Option<int>)
    ensures listFirst == listLast == arrayFirst == arrayLast == None
  {
    var l := new LinkedListDeque<int>();
    listFirst := l.RemoveFirst();
    listLast := l.RemoveLast();
    var a := new ArrayDeque<int>();
    arrayFirst := a.RemoveFirst();
    arrayLast := a.RemoveLast();
  }

  /**
   * `0 .. n - 1` added at the back of a linked-list deque; removing half of
   * them from the front returns `0, 1, ...` and removing the rest but one
   * from the back returns `n - 1, n - 2, ...`.
   */
  method BigLinkedList(n: nat) returns (fronts: seq<int>, backs: seq<int>)
    requires n >= 1
    ensures fronts == seq(n / 2, i => i)
    ensures backs == seq(n - n / 2 - 1, i => n - 1 - i)
  {
    var l := CountingList(n);
    forall j | 0 <= j < n
      ensures l.Contents[j] == j
    {
      UptoAt(n, j);
    }
    fronts := [];
    for i := 0 to n / 2
      invariant l.Valid() && fresh(l.Repr)
      invariant |l.Contents| == n - i && forall j :: 0 <= j < n - i ==> l.Contents[j] == i + j
      invariant |fronts| == i && forall j :: 0 <= j < i ==> fronts[j] == j
    {
      var item := l.RemoveFirst();
      fronts := fronts + [item.value];
    }
    backs := [];
    for i := 0 to n - n / 2 - 1
      invariant l.Valid() && fresh(l.Repr)
      invariant |l.Contents| == n - n / 2 - i && forall j :: 0 <= j < n - n / 2 - i ==> l.Contents[j] == n / 2 + j
      invariant |backs| == i && forall j :: 0 <= j < i ==> backs[j] == n - 1 - j
    {
      var item := l.RemoveLast();
      backs := backs + [item.value];
    }
  }

  /** `0, 1, ..., n - 1`. */
  ghost function Upto(n: nat): (r: seq<int>)
    ensures |r| == n
  {
    if n == 0 then [] else Upto(n - 1) + [n - 1]
  }

  /** `n - 1, ..., 1, 0`. */
  ghost function Downfrom(n: nat): (r: seq<int>)
    ensures |r| == n
  {
    if n == 0 then [] else [n - 1] + Downfrom(n - 1)
  }

  /** The item at index `k` of `Upto(n)` is `k`. */
  lemma {:induction false} UptoAt(n: nat, k: nat)
    requires k < n
    ensures Upto(n)[k] == k
  {
    if k < n - 1 {
      UptoAt(n - 1, k);
    } else if n > 1 {
      UptoAt(n - 1, 0);
    }
  }

  /** A linked-list deque holding `0 .. n - 1`, added at the back one by one. */
  method CountingList(n: nat) returns (l: LinkedListDeque<int>)
    ensures l.Valid() && fresh(l.Repr) && l.Contents == Upto(n)
  {
    l := new LinkedListDeque<int>();
    for i := 0 to n
      invariant l.Valid() && fresh(l.Repr) && l.Contents == Upto(i)
    {
      l.AddLast(i);
    }
  }

  /** An array deque holding `0 .. n - 1`, added at the back one by one. */
  method CountingArray(n: nat) returns (a: ArrayDeque<int>)
    ensures a.Valid() && fresh(a) && fresh(a.buffer) && a.Contents == Upto(n)
  {
    a := new ArrayDeque<int>();
    for i := 0 to n
      invariant a.Valid() && fresh(a) && fresh(a.buffer) && a.Contents == Upto(i)
    {
      a.AddLast(i);
    }
  }

  /** An array deque holding `n - 1 .. 0`: `0 .. n - 1` added at the front one by one. */
  method CountingArrayAtFront(n: nat) returns (a: ArrayDeque<int>)
    ensures a.Valid() && fresh(a) && fresh(a.buffer) && a.Contents == Downfrom(n)
  {
    a := new ArrayDeque<int>();
    for i := 0 to n
      invariant a.Valid() && fresh(a) && fresh(a.buffer) && a.Contents == Downfrom(i)
    {
      a.AddFirst(i);
    }
  }

  /** `0 .. 9` at the back of both a linked-list and an array deque: the two are equal. */
  method EqualsSameArray() returns (r: bool)
    ensures r
  {
    var l := CountingList(10);
    var a := CountingArray(10);
    r := l.Equals(ArrayDequeRef(a));
  }

  /** `0 .. 9` at the back of a linked-list deque but at the front of an array deque: the two differ. */
  method EqualsDifferentArray() returns (r: bool)
    ensures !r
  {
    var l := CountingList(10);
    var a := CountingArrayAtFront(10);
    UptoAt(10, 0);
    assert l.Contents[0] == 0 != 9 == a.Contents[0];
    r := l.Equals(ArrayDequeRef(a));
  }

  datatype Student = Student(id: int, name: string)

  /** Students 1 to 6 at the back and student 0 at the front: `get(2)` is Nora and `removeFirst` is Adrian. */
  method Students() returns (third: Option<Student>, removed: Option<Student>)
    ensures third == Some(Student(2, "Nora"))
    ensures removed == Some(Student(0, "Adrian"))
  {
    var students := new LinkedListDeque<Student>();
    students.AddLast(Student(1, "Kaitlyn"));
    students.AddLast(Student(2, "Nora"));
    students.AddLast(Student(3, "Alonso"));
    students.AddLast(Student(4, "Darwen"));
    students.AddLast(Student(5, "Bryan"));
    students.AddLast(Student(6, "Natalie"));
    students.AddFirst(Student(0, "Adrian"));
    third := students.Get(2);
    removed := students.RemoveFirst();
  }

  function Ascending(a: int, b: int): int { a - b }
  function Descending(a: int, b: int): int { b - a }
  function Longer(a: string, b: string): int { |a| - |b| }
  function Shorter(a: string, b: string): int { |b| - |a| }

  /** A max-deque under `c` holding `items`, added at the back one by one. */
  method MaxDequeOf<T(==)>(items: seq<T>, c: Comparator<T>) returns (test: MaxArrayDeque<T>)
    ensures fresh(test) && fresh(test.deque) && fresh(test.deque.buffer) && test.deque.Valid()
    ensures test.comparator == c && test.deque.Contents == items
  {
    test := new MaxArrayDeque(c);
    for i := 0 to |items|
      invariant fresh(test.deque) && fresh(test.deque.buffer) && test.deque.Valid() && test.comparator == c
      invariant test.deque.Contents == items[..i]
    {
      test.deque.AddLast(items[i]);
      assert items[..i + 1] == items[..i] + [items[i]];
    }
    assert items[..|items|] == items;
  }

  /** `a - b` and `b - a` keep the comparator contract on any integers. */
  lemma DifferencesAreComparators(s: seq<int>)
    ensures IsComparatorOn(s, Ascending) && IsComparatorOn(s, Descending)
  {
  }

  /** `|a| - |b|` and `|b| - |a|` keep the comparator contract on any strings. */
  lemma LengthDifferencesAreComparators(s: seq<string>)
    ensures IsComparatorOn(s, Longer) && IsComparatorOn(s, Shorter)
  {
  }

  /** What `max` promises on `0 .. 999` under `a - b`: the largest item is 999. */
  lemma CountingLargest(s: seq<int>, largest: Option<int>)
    requires |s| == 1000 && forall j :: 0 <= j < 1000 ==> s[j] == j
    requires largest.Some?
    requires IsComparatorOn(s, Ascending) ==> exists k :: IsFirstMax(s, k, Ascending) && largest.value == s[k]
    ensures largest == Some(999)
  {
    DifferencesAreComparators(s);
    var k :| IsFirstMax(s, k, Ascending) && largest.value == s[k];
    assert Ascending(s[999], s[k]) <= 0;
  }

  /** What `max` promises on `0 .. 999` under `b - a`: the largest item is 0. */
  lemma CountingSmallest(s: seq<int>, smallest: Option<int>)
    requires |s| == 1000 && forall j :: 0 <= j < 1000 ==> s[j] == j
    requires smallest.Some?
    requires IsComparatorOn(s, Descending) ==> exists k :: IsFirstMax(s, k, Descending) && smallest.value == s[k]
    ensures smallest == Some(0)
  {
    DifferencesAreComparators(s);
    var k :| IsFirstMax(s, k, Descending) && smallest.value == s[k];
    assert Descending(s[0], s[k]) <= 0;
  }

  /** `0 .. 999` in a max-deque: the largest under `a - b` is 999, and under `b - a` it is 0. */
  method IntegerMaxima() returns (largest: Option<int>, smallest: Option<int>)
    ensures largest == Some(999) && smallest == Some(0)
  {
    var test := MaxDequeOf(seq(1000, j => j), Ascending);
    largest := test.Max();
    smallest := test.MaxBy(Descending);
    CountingLargest(test.deque.Contents, largest);
    CountingSmallest(test.deque.Contents, smallest);
  }

  /** What `max` promises on the six strings under `|a| - |b|`: the longest is the fifth. */
  lemma StringsLongest(s: seq<string>, longest: Option<string>)
    requires s == ["hi", "my", "name", "is", "CS61B!!!!!!!!!!!!!", "1"]
    requires longest.Some?
    requires IsComparatorOn(s, Longer) ==> exists k :: IsFirstMax(s, k, Longer) && longest.value == s[k]
    ensures longest == Some("CS61B!!!!!!!!!!!!!")
  {
    LengthDifferencesAreComparators(s);
    var k :| IsFirstMax(s, k, Longer) && longest.value == s[k];
    assert Longer(s[4], s[k]) <= 0;
  }

  /** What `max` promises on the six strings under `|b| - |a|`: the first shortest is the sixth. */
  lemma StringsShortest(s: seq<string>, shortest: Option<string>)
    requires s == ["hi", "my", "name", "is", "CS61B!!!!!!!!!!!!!", "1"]
    requires shortest.Some?
    requires IsComparatorOn(s, Shorter) ==> exists k :: IsFirstMax(s, k, Shorter) && shortest.value == s[k]
    ensures shortest == Some("1")
  {
    LengthDifferencesAreComparators(s);
    var k :| IsFirstMax(s, k, Shorter) && shortest.value == s[k];
    assert Shorter(s[5], s[k]) <= 0;
  }

  /** Six strings in a max-deque: the longest is `"CS61B!!!!!!!!!!!!!"` and the shortest `"1"`. */
  method StringMaxima() returns (longest: Option<string>, shortest: Option<string>)
    ensures longest == Some("CS61B!!!!!!!!!!!!!") && shortest == Some("1")
  {
    var test := MaxDequeOf(["hi", "my", "name", "is", "CS61B!!!!!!!!!!!!!", "1"], Longer);
    longest := test.Max();
    shortest := test.MaxBy(Shorter);
    StringsLongest(test.deque.Contents, longest);
    StringsShortest(test.deque.Contents, shortest);
  }

  /** An array deque after `0 .. 63` were added at the back (it grows to 128 slots) and 32 were removed from the back. */
  method FillAndHalve() returns (a: ArrayDeque<int>)
    ensures fresh(a) && fresh(a.buffer) && a.Valid()
    ensures a.Contents == seq(32, j => j) && a.buffer.Length == 128
  {
    a := new ArrayDeque<int>();
    for i := 0 to 64
      invariant fresh(a) && fresh(a.buffer) && a.Valid()
      invariant |a.Contents| == i && forall j :: 0 <= j < i ==> a.Contents[j] == j
      invariant a.buffer.Length == if i < 8 then 8 else if i < 16 then 16 else if i < 32 then 32 else if i < 64 then 64 else 128
    {
      a.AddLast(i);
    }
    for i := 0 to 32
      invariant fresh(a) && fresh(a.buffer) && a.Valid() && a.buffer.Length == 128
      invariant |a.Contents| == 64 - i && forall j :: 0 <= j < 64 - i ==> a.Contents[j] == j
    {
      var _ := a.RemoveLast();
    }
  }

  /**
   * With `0 .. 31` left in 128 slots, the next `removeLast` halves the array
   * first and returns 30 where 31 is the back item.
   */
  method ShrinkingRemoveLast() returns (removed: Option<int>)
    ensures removed == Some(30)
  {
    var a := FillAndHalve();
    removed := a.RemoveLast();
  }

  /** The same calls with the corrected `removeLast` return the back item, 31. */
  method ShrinkingRemoveLastCorrected() returns (removed: Option<int>)
    ensures removed == Some(31)
  {
    var a := FillAndHalve();
    removed := a.RemoveLastCorrected();
  }
}
