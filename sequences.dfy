/**
 * Facts about integer sequences shared by both Ford-Johnson variants:
 * ordering, distinctness, insertion at an index (vector::insert / deque::insert)
 * and the lower bound of std::lower_bound.
 */
module Sequences {

  /** Ascending (non-decreasing) order. */
  ghost predicate Sorted(s: seq<int>) {
    forall i, j :: 0 <= i < j < |s| ==> s[i] <= s[j]
  }

  /** A sorted sequence orders the elements of each of its prefixes. */
  lemma SortedPrefix(s: seq<int>, n: nat)
    requires n <= |s| && Sorted(s[..n])
    ensures forall i, j :: 0 <= i < j < n ==> s[i] <= s[j]
  {
    forall i, j | 0 <= i < j < n
      ensures s[i] <= s[j]
    {
      assert s[..n][i] == s[i] && s[..n][j] == s[j];
    }
  }

  /** Every prefix of a sorted sequence is sorted. */
  lemma SortedTake(s: seq<int>, n: nat)
    requires Sorted(s) && n <= |s|
    ensures Sorted(s[..n])
  {
  }

  /** A sorted prefix stays sorted when the next element is not below its last one. */
  lemma SortedExtend(s: seq<int>, n: nat)
    requires 0 < n < |s| && Sorted(s[..n]) && s[n - 1] <= s[n]
    ensures Sorted(s[..n + 1])
  {
    SortedPrefix(s, n);
  }

  /** No value occurs twice. */
  ghost predicate Distinct(s: seq<int>) {
    forall i, j :: 0 <= i < j < |s| ==> s[i] != s[j]
  }

  /** `order` lists each index 0 .. n-1 exactly once, and nothing else. */
  ghost predicate IsIndexOrder(order: seq<nat>, n: nat) {
    forall x: nat :: multiset(order)[x] == if x < n then 1 else 0
  }

  /** `s` with `v` inserted before index `p`, as `c.insert(c.begin() + p, v)` leaves it. */
  function InsertAt(s: seq<int>, p: nat, v: int): (r: seq<int>)
    requires p <= |s|
    ensures |r| == |s| + 1 && r[p] == v
    ensures forall k :: 0 <= k < p ==> r[k] == s[k]
    ensures forall k :: p <= k < |s| ==> r[k + 1] == s[k]
    ensures multiset(r) == multiset(s) + multiset{v}
  {
    assert s == s[..p] + s[p..];
    s[..p] + [v] + s[p..]
  }

  /**
   * The lower bound of `v` in `s[..hi]`: the first index below `hi` whose element
   * is not less than `v`, or `hi` when there is none. On a sorted range this is
   * what std::lower_bound returns.
   */
  function LowerBound(s: seq<int>, hi: nat, v: int): (p: nat)
    requires hi <= |s|
    ensures p <= hi
    ensures forall k :: 0 <= k < p ==> s[k] < v
    ensures p < hi ==> v <= s[p]
    decreases hi
  {
    if hi == 0 then 0
    else
      var q := LowerBound(s, hi - 1, v);
      if q < hi - 1 then q
      else if s[hi - 1] < v then hi
      else hi - 1
  }

  /** The two lower-bound conditions determine the index: LowerBound is the only one. */
  lemma LowerBoundUnique(s: seq<int>, hi: nat, v: int, q: nat)
    requires hi <= |s| && q <= hi
    requires forall k :: 0 <= k < q ==> s[k] < v
    requires q < hi ==> v <= s[q]
    ensures q == LowerBound(s, hi, v)
  {
  }

  /**
   * The search range [left, right) of a binary search for `v` in `s[..hi]`
   * brackets the lower bound: everything before `left` is less than `v`, and the
   * element at `right` (when inside the range) is not.
   */
  ghost predicate Brackets(s: seq<int>, hi: nat, v: int, left: nat, right: nat)
    requires left <= right <= hi <= |s|
  {
    (forall k :: 0 <= k < left ==> s[k] < v) && (right < hi ==> v <= s[right])
  }

  /** Probing any index of a bracketing range of a sorted prefix keeps whichever half is kept bracketing. */
  lemma BracketsStep(s: seq<int>, hi: nat, v: int, left: nat, right: nat, mid: nat)
    requires left <= mid < right <= hi <= |s|
    requires Sorted(s[..hi]) && Brackets(s, hi, v, left, right)
    ensures v <= s[mid] ==> Brackets(s, hi, v, left, mid)
    ensures s[mid] < v ==> Brackets(s, hi, v, mid + 1, right)
  {
    SortedPrefix(s, hi);
  }

  /** A bracketing range that has shrunk to nothing sits at the lower bound. */
  lemma BracketsLowerBound(s: seq<int>, hi: nat, v: int, p: nat)
    requires p <= hi <= |s| && Brackets(s, hi, v, p, p)
    ensures p == LowerBound(s, hi, v)
  {
    LowerBoundUnique(s, hi, v, p);
  }

  /**
   * Inserting `v` at an index before which every element is at most `v` and at
   * which the element (if any) is at least `v` keeps a sorted sequence sorted.
   */
  lemma InsertKeepsSorted(s: seq<int>, p: nat, v: int)
    requires Sorted(s) && p <= |s|
    requires forall k :: 0 <= k < p ==> s[k] <= v
    requires p < |s| ==> v <= s[p]
    ensures Sorted(InsertAt(s, p, v))
  {
    var r := InsertAt(s, p, v);
    forall i, j | 0 <= i < j < |r|
      ensures r[i] <= r[j]
    {
      if j < p {
      } else if j == p {
      } else if i < p {
        assert r[j] == s[j - 1];
      } else if i == p {
        assert r[j] == s[j - 1];
      } else {
        assert r[i] == s[i - 1] && r[j] == s[j - 1];
      }
    }
  }

  /**
   * A sorted permutation of `s`. It stands for std::sort, of which only the
   * result is specified: sorted, and holding exactly the elements of `s`.
   */
  function Sort(s: seq<int>): (r: seq<int>)
    ensures Sorted(r)
    ensures multiset(r) == multiset(s)
    decreases |s|
  {
    if s == [] then []
    else
      var x := s[|s| - 1];
      var t := Sort(s[..|s| - 1]);
      var p := LowerBound(t, |t|, x);
      InsertKeepsSorted(t, p, x);
      assert s == s[..|s| - 1] + [x];
      InsertAt(t, p, x)
  }
}
