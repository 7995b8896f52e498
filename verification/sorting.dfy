/**
 Python's `list.sort(key=...)` and `sorted(..., key=...)`: a stable sort.
 It is modelled as an insertion sort over a comparison `le` on whole
 elements, which the callers build from the sort key; stability is stated as
 "the elements of each key class keep their relative order".
 */
module Sorting {

  /** `le` compares keys: any two elements are comparable and it chains. */
  ghost predicate TotalPreorder<T(!new)>(le: (T, T) -> bool) {
    (forall a, b :: le(a, b) || le(b, a))
    && (forall a, b, c :: le(a, b) && le(b, c) ==> le(a, c))
  }

  /** Neighbours are in order. */
  predicate SortedBy<T>(xs: seq<T>, le: (T, T) -> bool) {
    forall i :: 0 <= i < |xs| - 1 ==> le(xs[i], xs[i + 1])
  }

  /** Places `x` before the first element that is not smaller than it. */
  function Insert<T>(x: T, ys: seq<T>, le: (T, T) -> bool): (r: seq<T>)
    ensures |r| == |ys| + 1
    ensures r[0] == x || (ys != [] && r[0] == ys[0])
  {
    if ys == [] || le(x, ys[0]) then [x] + ys else [ys[0]] + Insert(x, ys[1..], le)
  }

  /** The stable sort by `le`. */
  function SortBy<T>(xs: seq<T>, le: (T, T) -> bool): (r: seq<T>)
    ensures |r| == |xs|
  {
    if xs == [] then [] else Insert(xs[0], SortBy(xs[1..], le), le)
  }

  lemma {:induction false} InsertPermutes<T>(x: T, ys: seq<T>, le: (T, T) -> bool)
    ensures multiset(Insert(x, ys, le)) == multiset{x} + multiset(ys)
    decreases |ys|
  {
    if ys == [] || le(x, ys[0]) {
    } else {
      InsertPermutes(x, ys[1..], le);
      assert ys == [ys[0]] + ys[1..];
    }
  }

  lemma {:induction false} InsertSorted<T(!new)>(x: T, ys: seq<T>, le: (T, T) -> bool)
    requires TotalPreorder(le) && SortedBy(ys, le)
    ensures SortedBy(Insert(x, ys, le), le)
    decreases |ys|
  {
    if ys == [] || le(x, ys[0]) {
    } else {
      var rest := Insert(x, ys[1..], le);
      InsertSorted(x, ys[1..], le);
      assert le(ys[0], rest[0]);
      var r := [ys[0]] + rest;
      forall i | 0 <= i < |r| - 1
        ensures le(r[i], r[i + 1])
      {
        if i > 0 {
          assert r[i] == rest[i - 1] && r[i + 1] == rest[i];
        }
      }
    }
  }

  /** The sort returns a permutation of its input. */
  lemma {:induction false} SortByPermutes<T>(xs: seq<T>, le: (T, T) -> bool)
    ensures multiset(SortBy(xs, le)) == multiset(xs)
    decreases |xs|
  {
    if xs != [] {
      SortByPermutes(xs[1..], le);
      InsertPermutes(xs[0], SortBy(xs[1..], le), le);
      assert xs == [xs[0]] + xs[1..];
    }
  }

  /** The sort returns its input in order. */
  lemma {:induction false} SortBySorted<T(!new)>(xs: seq<T>, le: (T, T) -> bool)
    requires TotalPreorder(le)
    ensures SortedBy(SortBy(xs, le), le)
    decreases |xs|
  {
    if xs != [] {
      SortBySorted(xs[1..], le);
      InsertSorted(xs[0], SortBy(xs[1..], le), le);
    }
  }

  /** An input already in order comes back unchanged. */
  lemma {:induction false} SortByKeepsSorted<T>(xs: seq<T>, le: (T, T) -> bool)
    requires SortedBy(xs, le)
    ensures SortBy(xs, le) == xs
    decreases |xs|
  {
    if xs != [] {
      var t := xs[1..];
      assert SortedBy(t, le) by {
        forall i | 0 <= i < |t| - 1 ensures le(t[i], t[i + 1]) {
          assert t[i] == xs[i + 1] && t[i + 1] == xs[i + 2];
        }
      }
      SortByKeepsSorted(t, le);
      if t != [] {
        assert le(xs[0], t[0]) by { assert t[0] == xs[1]; }
      }
      assert [xs[0]] + t == xs;
    }
  }

  // ---------------------------------------------------------------------
  // Stability
  // ---------------------------------------------------------------------

  /** Same sort key. */
  predicate Equiv<T>(le: (T, T) -> bool, a: T, b: T) {
    le(a, b) && le(b, a)
  }

  /** The elements with the same key as `k`, in order. */
  function KeyClass<T>(xs: seq<T>, k: T, le: (T, T) -> bool): seq<T>
  {
    if xs == [] then []
    else (if Equiv(le, xs[0], k) then [xs[0]] else []) + KeyClass(xs[1..], k, le)
  }

  lemma {:induction false} InsertKeyClass<T(!new)>(x: T, ys: seq<T>, k: T, le: (T, T) -> bool)
    requires TotalPreorder(le)
    ensures !Equiv(le, x, k) ==> KeyClass(Insert(x, ys, le), k, le) == KeyClass(ys, k, le)
    ensures Equiv(le, x, k) ==> KeyClass(Insert(x, ys, le), k, le) == [x] + KeyClass(ys, k, le)
    decreases |ys|
  {
    var r := Insert(x, ys, le);
    if ys == [] || le(x, ys[0]) {
      assert r[1..] == ys;
    } else {
      InsertKeyClass(x, ys[1..], k, le);
      assert r[1..] == Insert(x, ys[1..], le);
      // ys[0] is strictly smaller than x, so it is not in x's class.
      assert Equiv(le, x, k) ==> !Equiv(le, ys[0], k);
    }
  }

  /** Stability: every key class keeps its order from the input. */
  lemma {:induction false} SortByStable<T(!new)>(xs: seq<T>, k: T, le: (T, T) -> bool)
    requires TotalPreorder(le)
    ensures KeyClass(SortBy(xs, le), k, le) == KeyClass(xs, k, le)
    decreases |xs|
  {
    if xs != [] {
      SortByStable(xs[1..], k, le);
      InsertKeyClass(xs[0], SortBy(xs[1..], le), k, le);
    }
  }
}
