/**
 * The insertion-probe order of the Ford-Johnson sort, PmergeMe::buildJacobsthalOrder:
 * the Jacobsthal numbers J(0) = 0, J(1) = 1, J(k) = J(k-1) + 2 J(k-2) are generated
 * up to the first term not below n, and each block J(i-1) < x <= J(i), clamped to n,
 * is emitted in descending order as the 0-based indices J(i)-1 .. J(i-1).
 */
module Jacobsthal {

  import opened Sequences

  function Jac(k: nat): nat {
    if k == 0 then 0 else if k == 1 then 1 else Jac(k - 1) + 2 * Jac(k - 2)
  }

  /** From index 1 on the terms are positive, and J(k) >= k - 1 throughout. */
  lemma {:induction false} JacGrowth(k: nat)
    ensures k >= 1 ==> Jac(k) >= 1
    ensures Jac(k) + 1 >= k
  {
    if k >= 3 {
      JacGrowth(k - 1);
      JacGrowth(k - 2);
    }
  }

  /** The sequence never decreases. */
  lemma {:induction false} JacMonotone(i: nat, j: nat)
    requires i <= j
    ensures Jac(i) <= Jac(j)
    decreases j - i
  {
    if i < j {
      JacMonotone(i + 1, j);
      if i >= 1 {
        assert Jac(i + 1) == Jac(i) + 2 * Jac(i - 1);
      }
    }
  }

  function Min(a: nat, b: nat): nat {
    if a < b then a else b
  }

  /** The indices hi-1, hi-2, ..., lo: one descending block. */
  function Desc(hi: nat, lo: nat): (r: seq<nat>)
    ensures |r| == if lo < hi then hi - lo else 0
    decreases hi - lo
  {
    if hi <= lo then [] else [hi - 1] + Desc(hi - 1, lo)
  }

  /** Appending the next lower index extends a descending block downwards. */
  lemma {:induction false} DescExtend(hi: nat, lo: nat)
    requires 0 < lo <= hi
    ensures Desc(hi, lo - 1) == Desc(hi, lo) + [lo - 1]
    decreases hi - lo
  {
    if lo < hi {
      DescExtend(hi - 1, lo);
    }
  }

  /** The number of occurrences of x in s. */
  function Count<T(==)>(s: seq<T>, x: T): nat {
    if s == [] then 0 else Count(s[..|s| - 1], x) + (if s[|s| - 1] == x then 1 else 0)
  }

  lemma {:induction false} CountAppend<T>(a: seq<T>, b: seq<T>, x: T)
    ensures Count(a + b, x) == Count(a, x) + Count(b, x)
    decreases |b|
  {
    if b == [] {
      assert a + b == a;
    } else {
      assert (a + b)[..|a + b| - 1] == a + b[..|b| - 1];
      CountAppend(a, b[..|b| - 1], x);
    }
  }

  lemma {:induction false} CountIsMultiplicity<T>(s: seq<T>, x: T)
    ensures multiset(s)[x] == Count(s, x)
    decreases |s|
  {
    if s != [] {
      assert s == s[..|s| - 1] + [s[|s| - 1]];
      CountIsMultiplicity(s[..|s| - 1], x);
    }
  }

  /** Each index in lo .. hi-1 occurs once in the block, and nothing else does. */
  lemma {:induction false} DescCount(hi: nat, lo: nat, x: nat)
    ensures Count(Desc(hi, lo), x) == if lo <= x < hi then 1 else 0
    decreases hi - lo
  {
    if lo < hi {
      DescCount(hi - 1, lo, x);
      var top: seq<nat> := [hi - 1];
      CountAppend(top, Desc(hi - 1, lo), x);
      assert top[..0] == [];
    } else {
      assert Desc(hi, lo) == [];
    }
  }

  /** Blocks 1 .. k of the probe order for n indices, concatenated in increasing block order. */
  function Blocks(n: nat, k: nat): seq<nat> {
    if k == 0 then [] else Blocks(n, k - 1) + Desc(Min(Jac(k), n), Min(Jac(k - 1), n))
  }

  /** Blocks 1 .. k are blocks 1 .. k-1 followed by block k. */
  lemma BlocksNext(n: nat, k: nat)
    requires k > 0
    ensures Blocks(n, k) == Blocks(n, k - 1) + Desc(Min(Jac(k), n), Min(Jac(k - 1), n))
  {
  }

  /** Appending the block lo .. hi-1 to a sequence holding each index below lo once gives each index below hi once. */
  lemma AppendBlockCount(a: seq<nat>, lo: nat, hi: nat, x: nat)
    requires lo <= hi
    requires Count(a, x) == if x < lo then 1 else 0
    ensures Count(a + Desc(hi, lo), x) == if x < hi then 1 else 0
  {
    DescCount(hi, lo, x);
    CountAppend(a, Desc(hi, lo), x);
  }

  /** Blocks 1 .. k hold each index below min(J(k), n) exactly once, and nothing else. */
  lemma {:induction false} BlocksCount(n: nat, k: nat, x: nat)
    ensures Count(Blocks(n, k), x) == if x < Min(Jac(k), n) then 1 else 0
  {
    if k > 0 {
      JacMonotone(k - 1, k);
      BlocksCount(n, k - 1, x);
      AppendBlockCount(Blocks(n, k - 1), Min(Jac(k - 1), n), Min(Jac(k), n), x);
    }
  }

  /** J(i) < n: the generating loop goes on past term i. */
  predicate TermBelow(n: nat, i: nat) {
    Jac(i) < n
  }

  /** The first index i >= k whose term is at least n; every term from k up to it is below n. */
  function StopFrom(n: nat, k: nat): (s: nat)
    requires k >= 1
    ensures s >= k && Jac(s) >= n
    ensures forall i :: k <= i < s ==> TermBelow(n, i)
    decreases n + 1 - k
  {
    JacGrowth(k);
    if Jac(k) >= n then k else StopFrom(n, k + 1)
  }

  /**
   * Where the generating loop of buildJacobsthalOrder stops: the list then holds
   * J(0) .. J(StopIndex(n)), the first term at least n being the last one.
   */
  function StopIndex(n: nat): (s: nat)
    ensures s >= 1 && Jac(s) >= n
    ensures forall i :: 1 <= i < s ==> TermBelow(n, i)
  {
    StopFrom(n, 1)
  }

  /** The probe order for n pair indices. */
  function ProbeOrder(n: nat): seq<nat> {
    Blocks(n, StopIndex(n))
  }

  /** Blocks 1 .. k are as long as the range they cover. */
  lemma {:induction false} BlocksLength(n: nat, k: nat)
    ensures |Blocks(n, k)| == Min(Jac(k), n)
  {
    if k > 0 {
      JacMonotone(k - 1, k);
      BlocksLength(n, k - 1);
    }
  }

  /** The probe order holds each index 0 .. n-1 exactly once and nothing else. */
  lemma ProbeOrderIsPermutation(n: nat)
    ensures |ProbeOrder(n)| == n
    ensures IsIndexOrder(ProbeOrder(n), n)
  {
    var s := StopIndex(n);
    BlocksLength(n, s);
    forall x: nat
      ensures multiset(ProbeOrder(n))[x] == if x < n then 1 else 0
    {
      BlocksCount(n, s, x);
      CountIsMultiplicity(ProbeOrder(n), x);
    }
  }

  /** There is nothing to probe for no pairs. */
  lemma ProbeOrderEmpty()
    ensures ProbeOrder(0) == []
  {
    ProbeOrderIsPermutation(0);
  }

  /** Five pairs are probed as 0, then the block 2, 1, then the block 4, 3. */
  lemma ProbeOrderFive()
    ensures ProbeOrder(5) == [0, 2, 1, 4, 3]
  {
    assert Jac(2) == 1 && Jac(3) == 3 && Jac(4) == 5;
    assert StopIndex(5) == 4;
    assert Blocks(5, 1) == [0];
    assert Blocks(5, 2) == [0];
    assert Desc(3, 1) == [2, 1];
    assert Blocks(5, 3) == [0, 2, 1];
    assert Desc(5, 3) == [4, 3];
  }

  /**
   * The first loop of PmergeMe::buildJacobsthalOrder: starting from 0, 1, push
   * J(k-1) + 2 J(k-2) while the last term is below n.
   */
  method JacobsthalTerms(n: nat) returns (jacob: seq<nat>)
    ensures |jacob| == StopIndex(n) + 1
    ensures forall i :: 0 <= i < |jacob| ==> jacob[i] == Jac(i)
  {
    jacob := [0, 1];
    while jacob[|jacob| - 1] < n
      invariant |jacob| >= 2
      invariant forall i {:trigger jacob[i]} :: 0 <= i < |jacob| ==> jacob[i] == Jac(i)
      invariant forall i :: 1 <= i < |jacob| - 1 ==> TermBelow(n, i)
      decreases n + 2 - |jacob|
    {
      JacGrowth(|jacob| - 1);
      var size := |jacob|;
      jacob := jacob + [jacob[size - 1] + 2 * jacob[size - 2]];
    }
    ghost var last := |jacob| - 1;
    assert !TermBelow(n, last) && !TermBelow(n, StopIndex(n));
  }

  /** The inner loop of PmergeMe::buildJacobsthalOrder: push hi-1 down to lo. */
  method EmitBlock(order: seq<nat>, hi: nat, lo: nat) returns (r: seq<nat>)
    requires lo <= hi
    ensures r == order + Desc(hi, lo)
  {
    r := order;
    var j := hi;
    while j > lo
      invariant lo <= j <= hi
      invariant r == order + Desc(hi, j)
    {
      DescExtend(hi, j);
      r := r + [j - 1];
      j := j - 1;
    }
  }

  /**
   * PmergeMe::buildJacobsthalOrder: after generating the terms, emit for each
   * consecutive pair of terms, clamped to n, the indices from the upper term - 1
   * down to the lower term.
   */
  method BuildJacobsthalOrder(n: nat) returns (order: seq<nat>)
    ensures order == ProbeOrder(n)
  {
    order := [];
    var jacob := JacobsthalTerms(n);
    var prev := 0;
    var i := 1;
    while i < |jacob|
      invariant 1 <= i <= |jacob|
      invariant prev == Min(Jac(i - 1), n)
      invariant order == Blocks(n, i - 1)
    {
      var curr := jacob[i];
      if curr > n {
        curr := n;
      }
      assert curr == Min(Jac(i), n);
      JacMonotone(i - 1, i);
      order := EmitBlock(order, curr, prev);
      BlocksNext(n, i);
      prev := curr;
      i := i + 1;
    }
  }

  /**
   * buildJacobsthalOrder as the insertion loops use it: whatever the probe order,
   * it lists each pair index exactly once.
   */
  method IndexOrder(n: nat) returns (order: seq<nat>)
    ensures |order| == n && IsIndexOrder(order, n)
  {
    order := BuildJacobsthalOrder(n);
    ProbeOrderIsPermutation(n);
  }
}
