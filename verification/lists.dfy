/**
 The list operations the game applies to its food list: duplicate-freedom and
 the removal of the first occurrence of a value (Python's list.remove).
 */
module Lists {

  /** No value occurs twice. */
  predicate NoDup<T(==)>(xs: seq<T>) {
    forall i, j :: 0 <= i < j < |xs| ==> xs[i] != xs[j]
  }

  /** Index of the first occurrence of x in xs. */
  function FirstIndex<T(==)>(xs: seq<T>, x: T): (i: nat)
    requires x in xs
    ensures i < |xs| && xs[i] == x
    ensures x !in xs[..i]
  {
    if xs[0] == x then 0
    else
      var k := FirstIndex(xs[1..], x);
      assert xs[..k + 1] == [xs[0]] + xs[1..][..k];
      k + 1
  }

  /** Removes the first occurrence of x and keeps the order of the rest: the
      list is cut open at that occurrence. The caller checks membership first,
      so the not-found error of list.remove does not arise. */
  function RemoveFirst<T(==)>(xs: seq<T>, x: T): (r: seq<T>)
    requires x in xs
    ensures |r| == |xs| - 1
    ensures r == xs[..FirstIndex(xs, x)] + xs[FirstIndex(xs, x) + 1..]
  {
    if xs[0] == x then xs[1..]
    else
      var tail := xs[1..];
      var k := FirstIndex(tail, x);
      assert xs[..k + 1] == [xs[0]] + tail[..k];
      assert xs[k + 2..] == tail[k + 1..];
      [xs[0]] + RemoveFirst(tail, x)
  }

  /** Exactly one copy of x goes; every other value keeps its count. */
  lemma RemoveFirstCounts<T>(xs: seq<T>, x: T)
    requires x in xs
    ensures multiset(RemoveFirst(xs, x)) == multiset(xs) - multiset{x}
  {
    var i := FirstIndex(xs, x);
    assert xs == xs[..i] + [x] + xs[i + 1..];
    calc {
      multiset(xs);
      multiset(xs[..i]) + multiset{x} + multiset(xs[i + 1..]);
      multiset(RemoveFirst(xs, x)) + multiset{x};
    }
  }

  /** Removing from a duplicate-free list leaves it duplicate-free and drops
      the value entirely. */
  lemma RemoveFirstNoDup<T>(xs: seq<T>, x: T)
    requires x in xs
    requires NoDup(xs)
    ensures NoDup(RemoveFirst(xs, x))
    ensures x !in RemoveFirst(xs, x)
  {
  }
}
