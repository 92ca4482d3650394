/**
 * A stable sort by a comparison, the behaviour both scripts rely on: JavaScript's
 * `Array.prototype.sort` (stable since ES2019) with a comparator returning a signed
 * number, and Python's `sorted`. The comparison is given as a total preorder `le`;
 * elements it ranks equal keep their input order, which `Class` makes precise.
 */
module Sorting {

  /** `le` is total and transitive: a comparator a sort may use. */
  ghost predicate TotalPreorder<T(!new)>(le: (T, T) -> bool) {
    && (forall a, b :: le(a, b) || le(b, a))
    && (forall a, b, c :: le(a, b) && le(b, c) ==> le(a, c))
  }

  ghost predicate SortedBy<T>(s: seq<T>, le: (T, T) -> bool) {
    forall i, j :: 0 <= i < j < |s| ==> le(s[i], s[j])
  }

  /** `a` and `b` compare equal: the comparator returns 0 for them. */
  predicate Equiv<T>(le: (T, T) -> bool, a: T, b: T) {
    le(a, b) && le(b, a)
  }

  /** The elements of `s` that compare equal to `e`, in their order in `s`. */
  function Class<T>(s: seq<T>, le: (T, T) -> bool, e: T): seq<T> {
    if s == [] then []
    else Class(s[..|s| - 1], le, e) + (if Equiv(le, s[|s| - 1], e) then [s[|s| - 1]] else [])
  }

  lemma ClassAppend<T>(s: seq<T>, x: T, le: (T, T) -> bool, e: T)
    ensures Class(s + [x], le, e) == Class(s, le, e) + (if Equiv(le, x, e) then [x] else [])
  {
    assert (s + [x])[..|s|] == s;
  }

  /** Inserts `x` after the last element of `s` that does not compare above it; in a
      sorted `s` that is after every element not above `x`. */
  function Insert<T>(s: seq<T>, x: T, le: (T, T) -> bool): (r: seq<T>)
    ensures |r| == |s| + 1
  {
    if s == [] then [x]
    else if le(s[|s| - 1], x) then s + [x]
    else Insert(s[..|s| - 1], x, le) + [s[|s| - 1]]
  }

  lemma {:induction false} InsertMultiset<T>(s: seq<T>, x: T, le: (T, T) -> bool)
    ensures multiset(Insert(s, x, le)) == multiset(s) + multiset{x}
  {
    if s != [] && !le(s[|s| - 1], x) {
      var n := |s| - 1;
      assert s == s[..n] + [s[n]];
      InsertMultiset(s[..n], x, le);
    }
  }

  lemma {:induction false} InsertSorted<T(!new)>(s: seq<T>, x: T, le: (T, T) -> bool)
    requires TotalPreorder(le)
    requires SortedBy(s, le)
    ensures SortedBy(Insert(s, x, le), le)
  {
    if s != [] {
      var n := |s| - 1;
      var last := s[n];
      if !le(last, x) {
        var r' := Insert(s[..n], x, le);
        InsertSorted(s[..n], x, le);
        InsertMultiset(s[..n], x, le);
        forall i | 0 <= i < |r'| ensures le(r'[i], last) {
          assert r'[i] in multiset(r');
        }
      }
    }
  }

  lemma {:induction false} InsertClass<T(!new)>(s: seq<T>, x: T, le: (T, T) -> bool, e: T)
    requires TotalPreorder(le)
    requires SortedBy(s, le)
    ensures Class(Insert(s, x, le), le, e) == Class(s, le, e) + (if Equiv(le, x, e) then [x] else [])
  {
    if s == [] {
      ClassAppend([], x, le, e);
    } else {
      var n := |s| - 1;
      var last := s[n];
      assert s == s[..n] + [last];
      if le(last, x) {
        ClassAppend(s, x, le, e);
      } else {
        var r' := Insert(s[..n], x, le);
        InsertClass(s[..n], x, le, e);
        ClassAppend(r', last, le, e);
        ClassAppend(s[..n], last, le, e);
      }
    }
  }

  /** Stable insertion sort of `s` by `le`. What it promises is stated by `SortBySorted`
      and `SortByStable`, kept apart so that a caller pays for them only where it needs them. */
  function SortBy<T>(s: seq<T>, le: (T, T) -> bool): (r: seq<T>)
    ensures |r| == |s|
  {
    if s == [] then []
    else
      var n := |s| - 1;
      Insert(SortBy(s[..n], le), s[n], le)
  }

  /** Sorting by a total preorder yields a sorted permutation of the input. */
  lemma {:induction false} SortBySorted<T(!new)>(s: seq<T>, le: (T, T) -> bool)
    requires TotalPreorder(le)
    ensures SortedBy(SortBy(s, le), le)
    ensures multiset(SortBy(s, le)) == multiset(s)
  {
    if s != [] {
      var n := |s| - 1;
      assert s == s[..n] + [s[n]];
      SortBySorted(s[..n], le);
      InsertMultiset(SortBy(s[..n], le), s[n], le);
      InsertSorted(SortBy(s[..n], le), s[n], le);
    }
  }

  /** The sort is stable: elements that compare equal keep their relative input order. */
  lemma {:induction false} SortByStable<T(!new)>(s: seq<T>, le: (T, T) -> bool, e: T)
    requires TotalPreorder(le)
    ensures Class(SortBy(s, le), le, e) == Class(s, le, e)
  {
    if s != [] {
      var n := |s| - 1;
      assert s == s[..n] + [s[n]];
      var r' := SortBy(s[..n], le);
      SortBySorted(s[..n], le);
      SortByStable(s[..n], le, e);
      InsertClass(r', s[n], le, e);
      ClassAppend(s[..n], s[n], le, e);
    }
  }
}
