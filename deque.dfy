/**
 * The `Deque` contract both implementations keep, stated on the sequence of
 * items: what each operation does to the sequence and what it returns.
 */
module DequeContract {
  import opened Wrappers

  /** The operations a client issues. */
  datatype Op<T> = AddFirst(x: T) | AddLast(x: T) | RemoveFirst | RemoveLast

  /** The items after `op` on a deque holding `s`, and what `op` returns (`None` for null or nothing). */
  function Apply<T>(s: seq<T>, op: Op<T>): (seq<T>, Option<T>)
  {
    match op
    case AddFirst(x) => ([x] + s, None)
    case AddLast(x) => (s + [x], None)
    case RemoveFirst => if s == [] then (s, None) else (s[1..], Some(s[0]))
    case RemoveLast => if s == [] then (s, None) else (s[..|s| - 1], Some(s[|s| - 1]))
  }

  /** The items after issuing `ops` in order on a deque holding `s`. */
  function Final<T>(s: seq<T>, ops: seq<Op<T>>): seq<T>
    decreases |ops|
  {
    if ops == [] then s else Final(Apply(s, ops[0]).0, ops[1..])
  }

  /** The items returned by the removals among `ops`, in order; a removal on an empty deque returns null and adds nothing. */
  function Returned<T>(s: seq<T>, ops: seq<Op<T>>): seq<T>
    decreases |ops|
  {
    if ops == [] then []
    else
      var (next, r) := Apply(s, ops[0]);
      (if r.Some? then [r.value] else []) + Returned(next, ops[1..])
  }

  /** `n` copies of `op`. */
  function Repeat<T>(op: Op<T>, n: nat): (ops: seq<Op<T>>)
    ensures |ops| == n && forall i :: 0 <= i < n ==> ops[i] == op
  {
    seq(n, _ => op)
  }

  /** `AddLast` of each of `xs` in turn. */
  function AddLasts<T>(xs: seq<T>): (ops: seq<Op<T>>)
    ensures |ops| == |xs| && forall i :: 0 <= i < |xs| ==> ops[i] == AddLast(xs[i])
  {
    seq(|xs|, i requires 0 <= i < |xs| => AddLast(xs[i]))
  }

  function Reverse<T>(s: seq<T>): (r: seq<T>)
    ensures |r| == |s| && forall i :: 0 <= i < |s| ==> r[i] == s[|s| - 1 - i]
  {
    seq(|s|, i requires 0 <= i < |s| => s[|s| - 1 - i])
  }

  /** Issuing one more operation does to the final items what that operation does. */
  lemma {:induction false} FinalSnoc<T>(s: seq<T>, ops: seq<Op<T>>, op: Op<T>)
    ensures Final(s, ops + [op]) == Apply(Final(s, ops), op).0
    decreases |ops|
  {
    if ops == [] {
      assert ops + [op] == [op];
    } else {
      assert (ops + [op])[0] == ops[0];
      assert (ops + [op])[1..] == ops[1..] + [op];
      FinalSnoc(Apply(s, ops[0]).0, ops[1..], op);
    }
  }

  /** Issuing one more operation appends to the final items what it does to them, and to the returned items what it returns. */
  lemma {:induction false} ReplaySnoc<T>(s: seq<T>, ops: seq<Op<T>>, op: Op<T>)
    ensures Final(s, ops + [op]) == Apply(Final(s, ops), op).0
    ensures Returned(s, ops + [op]) == Returned(s, ops) + (var r := Apply(Final(s, ops), op).1; if r.Some? then [r.value] else [])
    decreases |ops|
  {
    FinalSnoc(s, ops, op);
    if ops == [] {
      assert ops + [op] == [op];
    } else {
      var next := Apply(s, ops[0]);
      assert (ops + [op])[0] == ops[0];
      assert (ops + [op])[1..] == ops[1..] + [op];
      ReplaySnoc(next.0, ops[1..], op);
      var first := if next.1.Some? then [next.1.value] else [];
      assert Returned(s, ops + [op]) == first + Returned(next.0, ops[1..] + [op]);
      assert Returned(s, ops) == first + Returned(next.0, ops[1..]);
    }
  }

  /** Adding `xs` at the back one by one appends them in order. */
  lemma {:induction false} FillBack<T>(s: seq<T>, xs: seq<T>)
    ensures Final(s, AddLasts(xs)) == s + xs
    ensures Returned(s, AddLasts(xs)) == []
    decreases |xs|
  {
    if xs != [] {
      assert AddLasts(xs)[1..] == AddLasts(xs[1..]);
      FillBack(s + [xs[0]], xs[1..]);
      assert s + [xs[0]] + xs[1..] == s + xs;
    }
  }

  /** Removing from the front until empty returns the items in order: first in, first out. */
  lemma {:induction false} DrainFront<T>(s: seq<T>)
    ensures Returned(s, Repeat(RemoveFirst, |s|)) == s
    ensures Final(s, Repeat(RemoveFirst, |s|)) == []
    decreases |s|
  {
    if s != [] {
      assert Repeat<T>(RemoveFirst, |s|)[1..] == Repeat<T>(RemoveFirst, |s| - 1);
      DrainFront(s[1..]);
    }
  }

  /** Removing from the back until empty returns the items in reverse: last in, first out. */
  lemma {:induction false} DrainBack<T>(s: seq<T>)
    ensures Returned(s, Repeat(RemoveLast, |s|)) == Reverse(s)
    ensures Final(s, Repeat(RemoveLast, |s|)) == []
    decreases |s|
  {
    if s != [] {
      assert Repeat<T>(RemoveLast, |s|)[1..] == Repeat<T>(RemoveLast, |s| - 1);
      DrainBack(s[..|s| - 1]);
      assert Reverse(s) == [s[|s| - 1]] + Reverse(s[..|s| - 1]);
    }
  }
}
