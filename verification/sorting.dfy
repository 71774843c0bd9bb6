/**
 * `Array.prototype.sort` with a numeric comparator `(a, b) => key(a) - key(b)`:
 * a stable sort by an integer key, written as insertion sort.
 */
module Sorting {

  predicate SortedBy<T>(s: seq<T>, key: T -> int) {
    forall i, j :: 0 <= i < j < |s| ==> key(s[i]) <= key(s[j])
  }

  /** Inserts `x` into a sorted sequence after every element whose key is not larger. */
  function InsertBy<T>(s: seq<T>, x: T, key: T -> int): (r: seq<T>)
    requires SortedBy(s, key)
    ensures SortedBy(r, key)
    ensures multiset(r) == multiset(s) + multiset{x}
    ensures |r| == |s| + 1
    decreases |s|
  {
    if s == [] || key(s[|s| - 1]) <= key(x) then s + [x]
    else
      var last := s[|s| - 1];
      var init := s[..|s| - 1];
      assert s == init + [last];
      var front := InsertBy(init, x, key);
      BoundedByLast(front, init, x, last, key);
      front + [last]
  }

  /**
   * Whatever holds the elements of a sorted `init + [last]` and an `x` with a
   * smaller key is bounded by the key of `last`; appending `last` keeps it sorted.
   */
  lemma BoundedByLast<T>(front: seq<T>, init: seq<T>, x: T, last: T, key: T -> int)
    requires SortedBy(front, key) && SortedBy(init + [last], key) && key(x) <= key(last)
    requires multiset(front) == multiset(init) + multiset{x}
    ensures SortedBy(front + [last], key)
  {
    forall i | 0 <= i < |front| ensures key(front[i]) <= key(last) {
      assert front[i] in multiset(front);
      if front[i] != x {
        assert front[i] in init;
        var j :| 0 <= j < |init| && init[j] == front[i];
        assert (init + [last])[j] == front[i] && (init + [last])[|init|] == last;
      }
    }
  }

  /** The sorted permutation of `s`; elements with equal keys keep their order. */
  function SortBy<T>(s: seq<T>, key: T -> int): (r: seq<T>)
    ensures SortedBy(r, key)
    ensures multiset(r) == multiset(s)
    ensures |r| == |s|
    decreases |s|
  {
    if s == [] then []
    else
      assert s == s[..|s| - 1] + [s[|s| - 1]];
      InsertBy(SortBy(s[..|s| - 1], key), s[|s| - 1], key)
  }
}
