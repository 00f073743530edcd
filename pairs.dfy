/**
 * The pairs of the Ford-Johnson sort (std::pair<int, int>), as both variants of
 * PmergeMe build them from adjacent elements, and the multiset bookkeeping that
 * shows no element is lost when the pairs are taken apart again.
 */
module Pairs {
  import opened Sequences

  /** A pair of input elements; `first` is the smaller ("a") and `second` the larger ("b"). */
  datatype Pair = Pair(first: int, second: int)

  /** What makePairsVector stores as `second` of the pair holding an unpaired last element. */
  const Sentinel: int := -1

  /** The pair built from adjacent elements a, b: (a, b) when a < b, otherwise (b, a). */
  function OrderPair(a: int, b: int): (p: Pair)
    ensures p.first <= p.second
    ensures multiset{p.first, p.second} == multiset{a, b}
  {
    if a < b then Pair(a, b) else Pair(b, a)
  }

  function Firsts(ps: seq<Pair>): seq<int> {
    seq(|ps|, k requires 0 <= k < |ps| => ps[k].first)
  }

  function Seconds(ps: seq<Pair>): seq<int> {
    seq(|ps|, k requires 0 <= k < |ps| => ps[k].second)
  }

  /** Every index in idx is a valid index of a sequence of length n. */
  predicate IndicesBelow(idx: seq<nat>, n: nat) {
    forall t :: 0 <= t < |idx| ==> idx[t] < n
  }

  lemma IndicesBelowPrefix(idx: seq<nat>, k: nat, n: nat)
    requires IndicesBelow(idx, n) && k <= |idx|
    ensures IndicesBelow(idx[..k], n)
  {
  }

  /** The first components of the pairs at the given indices, in the order of the indices. */
  function FirstsAt(ps: seq<Pair>, idx: seq<nat>): seq<int>
    requires IndicesBelow(idx, |ps|)
  {
    seq(|idx|, t requires 0 <= t < |idx| => ps[idx[t]].first)
  }

  /** `ps` without the pair at index j, as `pairs.erase(pairs.begin() + j)` leaves it. */
  function RemoveAt(ps: seq<Pair>, j: nat): seq<Pair>
    requires j < |ps|
  {
    ps[..j] + ps[j + 1..]
  }

  /** The pairs fordJohnson forms from c: elements 2k and 2k+1 make pair k. */
  function Pairing(c: seq<int>): seq<Pair>
    decreases |c|
  {
    if |c| < 2 then [] else [OrderPair(c[0], c[1])] + Pairing(c[2..])
  }

  /** What pairing leaves over: the last element when there is an odd number of them, else nothing. */
  function Leftover(c: seq<int>): seq<int>
    decreases |c|
  {
    if |c| < 2 then c else Leftover(c[2..])
  }

  /** The pairs makePairsVector forms: those of Pairing, then (x, Sentinel) for an odd last element x. */
  function SentinelPairing(c: seq<int>): seq<Pair> {
    Pairing(c) + if |c| % 2 == 1 then [Pair(c[|c| - 1], Sentinel)] else []
  }

  /** The second components that are not the sentinel, in order: what sortBigVector collects. */
  function RealSeconds(ps: seq<Pair>): seq<int> {
    if ps == [] then []
    else RealSeconds(ps[..|ps| - 1]) + if ps[|ps| - 1].second != Sentinel then [ps[|ps| - 1].second] else []
  }

  // Generic regrouping facts; kept generic because the solver handles them far more cheaply so.

  lemma SplitTwo<T>(c: seq<T>)
    requires |c| >= 2
    ensures c == [c[0], c[1]] + c[2..]
    ensures multiset(c) == multiset{c[0], c[1]} + multiset(c[2..])
  {
    assert c == [c[0], c[1]] + c[2..];
  }

  lemma Regroup<T>(f: seq<T>, s: seq<T>, l: seq<T>, c: seq<T>, x: T, y: T)
    requires |c| >= 2
    requires multiset(f) + multiset(s) + multiset(l) == multiset(c[2..])
    requires multiset{x, y} == multiset{c[0], c[1]}
    ensures multiset([x] + f) + multiset([y] + s) + multiset(l) == multiset(c)
  {
    SplitTwo(c);
    calc {
      multiset([x] + f) + multiset([y] + s) + multiset(l);
      multiset{x, y} + (multiset(f) + multiset(s) + multiset(l));
      multiset{c[0], c[1]} + multiset(c[2..]);
    }
  }

  lemma DropTwo<T>(c: seq<T>, i: nat)
    requires i + 2 <= |c|
    ensures c[i..][2..] == c[i + 2..]
    ensures c[i..][0] == c[i] && c[i..][1] == c[i + 1]
  {
  }

  lemma FirstsSecondsCons(p: Pair, ps: seq<Pair>)
    ensures Firsts([p] + ps) == [p.first] + Firsts(ps)
    ensures Seconds([p] + ps) == [p.second] + Seconds(ps)
  {
  }

  lemma FirstsSecondsAppend(ps: seq<Pair>, qs: seq<Pair>)
    ensures Firsts(ps + qs) == Firsts(ps) + Firsts(qs)
    ensures Seconds(ps + qs) == Seconds(ps) + Seconds(qs)
  {
  }

  /** Pairing the rest of c from an index i with two elements left takes those two first. */
  lemma PairingStep(c: seq<int>, i: nat)
    requires i + 2 <= |c|
    ensures Pairing(c[i..]) == [OrderPair(c[i], c[i + 1])] + Pairing(c[i + 2..])
    ensures Leftover(c[i..]) == Leftover(c[i + 2..])
  {
    DropTwo(c, i);
  }

  /** One round of the pairing loop: the pairs built so far and the pairs of the rest still make Pairing(c). */
  lemma PairingLoopStep(c: seq<int>, i: nat, done: seq<Pair>)
    requires i + 2 <= |c|
    requires done + Pairing(c[i..]) == Pairing(c)
    ensures (done + [OrderPair(c[i], c[i + 1])]) + Pairing(c[i + 2..]) == Pairing(c)
    ensures Leftover(c[i + 2..]) == Leftover(c[i..])
  {
    PairingStep(c, i);
    assert (done + [OrderPair(c[i], c[i + 1])]) + Pairing(c[i + 2..]) == done + Pairing(c[i..]);
  }

  /** After the pairing loop, adding (x, Sentinel) for a remaining element x gives SentinelPairing(c). */
  lemma SentinelPairingLoopEnd(c: seq<int>, i: nat, done: seq<Pair>)
    requires i <= |c| && |c| <= i + 1
    requires done + Pairing(c[i..]) == Pairing(c)
    requires Leftover(c[i..]) == Leftover(c)
    ensures i < |c| ==> done + [Pair(c[i], Sentinel)] == SentinelPairing(c)
    ensures i == |c| ==> done == SentinelPairing(c)
  {
    LeftoverShape(c);
    if i < |c| {
      assert c[i..] == [c[i]];
    } else {
      assert c[i..] == [];
    }
    assert done == Pairing(c);
  }

  /** Pairing yields |c|/2 pairs. */
  lemma {:induction false} PairingLength(c: seq<int>)
    ensures |Pairing(c)| == |c| / 2
    decreases |c|
  {
    if |c| >= 2 {
      PairingLength(c[2..]);
    }
  }

  /** Pair k is built from elements 2k and 2k+1, so it is ordered. */
  lemma {:induction false} PairingAt(c: seq<int>, k: nat)
    requires 2 * k + 1 < |c|
    ensures |Pairing(c)| > k
    ensures Pairing(c)[k] == OrderPair(c[2 * k], c[2 * k + 1])
    decreases k
  {
    var r := c[2..];
    assert Pairing(c) == [OrderPair(c[0], c[1])] + Pairing(r);
    if k > 0 {
      var j := k - 1;
      assert 2 * j + 2 == 2 * k;
      PairingAt(r, j);
      assert r[2 * j] == c[2 * k] && r[2 * j + 1] == c[2 * k + 1];
    }
  }

  /** Pairing yields |c|/2 pairs, and pair k is built from elements 2k and 2k+1. */
  lemma PairingShape(c: seq<int>)
    ensures |Pairing(c)| == |c| / 2
    ensures forall k :: 0 <= k < |c| / 2 ==> Pairing(c)[k] == OrderPair(c[2 * k], c[2 * k + 1])
  {
    PairingLength(c);
    forall k | 0 <= k < |c| / 2
      ensures Pairing(c)[k] == OrderPair(c[2 * k], c[2 * k + 1])
    {
      PairingAt(c, k);
    }
  }

  /** What pairing leaves over is the last element exactly when |c| is odd. */
  lemma {:induction false} LeftoverShape(c: seq<int>)
    ensures Leftover(c) == if |c| % 2 == 1 then [c[|c| - 1]] else []
    decreases |c|
  {
    if |c| >= 2 {
      var r := c[2..];
      LeftoverShape(r);
      assert |r| % 2 == |c| % 2;
      if |c| % 2 == 1 {
        assert r[|r| - 1] == c[|c| - 1];
      }
    }
  }

  /** Pairing loses nothing: the pairs and the leftover hold exactly the elements of c. */
  lemma {:induction false} PairingMultiset(c: seq<int>)
    ensures multiset(Firsts(Pairing(c))) + multiset(Seconds(Pairing(c))) + multiset(Leftover(c)) == multiset(c)
    decreases |c|
  {
    if |c| >= 2 {
      var r := c[2..];
      var p := OrderPair(c[0], c[1]);
      var ps := Pairing(r);
      PairingMultiset(r);
      FirstsSecondsCons(p, ps);
      Regroup(Firsts(ps), Seconds(ps), Leftover(r), c, p.first, p.second);
    } else {
      assert Firsts([]) == [] && Seconds([]) == [];
    }
  }

  /** The larger elements of the pairs of distinct elements are distinct. */
  lemma PairingDistinct(c: seq<int>)
    requires Distinct(c)
    ensures Distinct(Seconds(Pairing(c)))
  {
    var bigs := Seconds(Pairing(c));
    PairingShape(c);
    forall i, j | 0 <= i < j < |bigs|
      ensures bigs[i] != bigs[j]
    {
      assert bigs[i] == c[2 * i] || bigs[i] == c[2 * i + 1];
      assert bigs[j] == c[2 * j] || bigs[j] == c[2 * j + 1];
      assert 2 * i + 1 < 2 * j;
    }
  }

  lemma RemoveAtSplit<T>(s: seq<T>, j: nat)
    requires j < |s|
    ensures s == s[..j] + [s[j]] + s[j + 1..]
  {
  }

  /** Erasing pair j takes exactly its two components out of the pairs. */
  lemma RemoveAtMultiset(ps: seq<Pair>, j: nat)
    requires j < |ps|
    ensures multiset(Firsts(ps)) == multiset(Firsts(RemoveAt(ps, j))) + multiset{ps[j].first}
    ensures multiset(Seconds(ps)) == multiset(Seconds(RemoveAt(ps, j))) + multiset{ps[j].second}
    ensures Distinct(Seconds(ps)) ==> Distinct(Seconds(RemoveAt(ps, j)))
  {
    var r := RemoveAt(ps, j);
    RemoveAtSplit(ps, j);
    FirstsSecondsAppend(ps[..j] + [ps[j]], ps[j + 1..]);
    FirstsSecondsAppend(ps[..j], [ps[j]]);
    FirstsSecondsAppend(ps[..j], ps[j + 1..]);
    assert Firsts([ps[j]]) == [ps[j].first] && Seconds([ps[j]]) == [ps[j].second];
    if Distinct(Seconds(ps)) {
      forall a, b | 0 <= a < b < |r|
        ensures Seconds(r)[a] != Seconds(r)[b]
      {
        var a' := if a < j then a else a + 1;
        var b' := if b < j then b else b + 1;
        assert Seconds(r)[a] == Seconds(ps)[a'] && Seconds(r)[b] == Seconds(ps)[b'];
      }
    }
  }

  lemma FirstsAtAppend(ps: seq<Pair>, u: seq<nat>, v: seq<nat>)
    requires IndicesBelow(u, |ps|)
    requires IndicesBelow(v, |ps|)
    ensures IndicesBelow(u + v, |ps|)
    ensures FirstsAt(ps, u + v) == FirstsAt(ps, u) + FirstsAt(ps, v)
  {
  }

  lemma FirstsAtSnoc(ps: seq<Pair>, a: seq<nat>, u: seq<nat>, x: nat)
    requires IndicesBelow(a, |ps|) && a == u + [x]
    ensures IndicesBelow(u, |ps|) && x < |ps|
    ensures multiset(FirstsAt(ps, a)) == multiset(FirstsAt(ps, u)) + multiset{ps[x].first}
  {
    assert a[|u|] == x;
    assert IndicesBelow(u, |ps|) by {
      forall t | 0 <= t < |u|
        ensures u[t] < |ps|
      {
        assert a[t] == u[t];
      }
    }
    FirstsAtAppend(ps, u, [x]);
    assert FirstsAt(ps, [x]) == [ps[x].first];
  }

  lemma FirstsAtMiddle(ps: seq<Pair>, b: seq<nat>, u: seq<nat>, x: nat, v: seq<nat>)
    requires IndicesBelow(b, |ps|) && b == u + ([x] + v)
    ensures IndicesBelow(u + v, |ps|) && x < |ps|
    ensures multiset(FirstsAt(ps, b)) == multiset(FirstsAt(ps, u + v)) + multiset{ps[x].first}
  {
    assert b[|u|] == x;
    assert IndicesBelow(u, |ps|) && IndicesBelow(v, |ps|) by {
      forall t | 0 <= t < |u|
        ensures u[t] < |ps|
      {
        assert b[t] == u[t];
      }
      forall t | 0 <= t < |v|
        ensures v[t] < |ps|
      {
        assert b[|u| + 1 + t] == v[t];
      }
    }
    FirstsAtAppend(ps, [x], v);
    FirstsAtAppend(ps, u, [x] + v);
    FirstsAtAppend(ps, u, v);
    assert FirstsAt(ps, [x]) == [ps[x].first];
  }

  /** Splits the last element x of a off a, and the same element off b wherever it sits there. */
  lemma SplitSame<T>(a: seq<T>, b: seq<T>) returns (a': seq<T>, x: T, b1: seq<T>, b2: seq<T>)
    requires a != [] && multiset(a) == multiset(b)
    ensures a == a' + [x] && b == b1 + ([x] + b2)
    ensures multiset(a') == multiset(b1 + b2)
  {
    x := a[|a| - 1];
    a' := a[..|a| - 1];
    assert a == a' + [x];
    assert x in b by {
      assert x in multiset(b);
    }
    var k :| 0 <= k < |b| && b[k] == x;
    b1, b2 := b[..k], b[k + 1..];
    assert b == b1 + ([x] + b2);
    assert multiset(a') == multiset(a) - multiset{x};
    assert multiset(b1 + b2) == multiset(b) - multiset{x};
  }

  /** Index sequences holding the same indices pick the same first components, in some order. */
  lemma {:induction false} FirstsAtSameMultiset(ps: seq<Pair>, a: seq<nat>, b: seq<nat>)
    requires IndicesBelow(a, |ps|)
    requires IndicesBelow(b, |ps|)
    requires multiset(a) == multiset(b)
    ensures multiset(FirstsAt(ps, a)) == multiset(FirstsAt(ps, b))
    decreases |a|
  {
    if a == [] {
      assert b == [] by {
        assert |b| == |multiset(b)|;
      }
    } else {
      var a', x, b1, b2 := SplitSame(a, b);
      FirstsAtSnoc(ps, a, a', x);
      FirstsAtMiddle(ps, b, b1, x, b2);
      FirstsAtSameMultiset(ps, a', b1 + b2);
    }
  }

  /**
   * One round of an insertion loop over `order`: inserting the first component of
   * pair order[k] anywhere in the chain adds exactly that element to it.
   */
  lemma InsertNextFirst(main: seq<int>, base: multiset<int>, ps: seq<Pair>, order: seq<nat>, k: nat, pos: nat)
    requires IndicesBelow(order, |ps|) && k < |order| && IndicesBelow(order[..k], |ps|)
    requires multiset(main) == base + multiset(FirstsAt(ps, order[..k]))
    requires order[k] < |ps| && pos <= |main|
    ensures IndicesBelow(order[..k + 1], |ps|)
    ensures multiset(InsertAt(main, pos, ps[order[k]].first)) == base + multiset(FirstsAt(ps, order[..k + 1]))
  {
    assert order[..k + 1] == order[..k] + [order[k]];
    IndicesBelowPrefix(order, k + 1, |ps|);
    FirstsAtSnoc(ps, order[..k + 1], order[..k], order[k]);
  }

  /** 0, 1, ..., n-1. */
  function Iota(n: nat): (r: seq<nat>)
    ensures |r| == n && forall t :: 0 <= t < n ==> r[t] == t
  {
    seq(n, t requires 0 <= t < n => t)
  }

  /** An order holding each pair index exactly once picks every first component exactly once. */
  lemma FirstsAtPermutation(ps: seq<Pair>, order: seq<nat>)
    requires IsIndexOrder(order, |ps|)
    ensures IndicesBelow(order, |ps|)
    ensures multiset(FirstsAt(ps, order)) == multiset(Firsts(ps))
  {
    forall t | 0 <= t < |order|
      ensures order[t] < |ps|
    {
      assert multiset(order)[order[t]] > 0;
    }
    var iota: seq<nat> := Iota(|ps|);
    forall x: nat
      ensures multiset(iota)[x] == if x < |ps| then 1 else 0
    {
      IotaCount(|ps|, x);
    }
    assert multiset(order) == multiset(iota);
    FirstsAtSameMultiset(ps, order, iota);
    assert FirstsAt(ps, iota) == Firsts(ps);
  }

  lemma {:induction false} IotaCount(n: nat, x: nat)
    ensures multiset(Iota(n))[x] == if x < n then 1 else 0
  {
    if n > 0 {
      IotaCount(n - 1, x);
      assert Iota(n) == Iota(n - 1) + [n - 1];
    }
  }

  /**
   * makePairsVector's pairs: ceil(n/2) of them; pair k < n/2 is ordered and holds
   * elements 2k and 2k+1; an odd last element x becomes (x, Sentinel).
   */
  lemma SentinelPairingShape(c: seq<int>)
    ensures |SentinelPairing(c)| == (|c| + 1) / 2
    ensures forall k :: 0 <= k < |c| / 2 ==> SentinelPairing(c)[k] == OrderPair(c[2 * k], c[2 * k + 1])
    ensures |c| % 2 == 1 ==> SentinelPairing(c)[|c| / 2] == Pair(c[|c| - 1], Sentinel)
  {
    PairingShape(c);
  }

  /** Every pair of SentinelPairing other than the sentinel pair is ordered. */
  lemma SentinelPairingOrdered(c: seq<int>)
    ensures forall k :: 0 <= k < |SentinelPairing(c)| && SentinelPairing(c)[k].second != Sentinel ==>
      SentinelPairing(c)[k].first <= SentinelPairing(c)[k].second
  {
    SentinelPairingShape(c);
  }

  lemma {:induction false} RealSecondsAppend(ps: seq<Pair>, qs: seq<Pair>)
    ensures RealSeconds(ps + qs) == RealSeconds(ps) + RealSeconds(qs)
    decreases |qs|
  {
    if qs != [] {
      assert (ps + qs)[..|ps + qs| - 1] == ps + qs[..|qs| - 1];
      RealSecondsAppend(ps, qs[..|qs| - 1]);
    } else {
      assert ps + qs == ps;
    }
  }

  lemma {:induction false} RealSecondsNoSentinel(ps: seq<Pair>)
    requires forall k :: 0 <= k < |ps| ==> ps[k].second != Sentinel
    ensures RealSeconds(ps) == Seconds(ps)
  {
    if ps != [] {
      RealSecondsNoSentinel(ps[..|ps| - 1]);
      assert ps == ps[..|ps| - 1] + [ps[|ps| - 1]];
      FirstsSecondsAppend(ps[..|ps| - 1], [ps[|ps| - 1]]);
    }
  }

  /** For non-negative input no pair of Pairing has the sentinel as its larger element. */
  lemma PairingNoSentinel(c: seq<int>)
    requires forall k :: 0 <= k < |c| ==> c[k] >= 0
    ensures RealSeconds(Pairing(c)) == Seconds(Pairing(c))
  {
    var ps := Pairing(c);
    PairingShape(c);
    forall k | 0 <= k < |ps|
      ensures ps[k].second != Sentinel
    {
      assert ps[k].second == c[2 * k] || ps[k].second == c[2 * k + 1];
    }
    RealSecondsNoSentinel(ps);
  }

  /** The sentinel pair holds the leftover as its first component and nothing real as its second. */
  lemma SentinelTail(c: seq<int>, tail: seq<Pair>)
    requires tail == if |c| % 2 == 1 then [Pair(c[|c| - 1], Sentinel)] else []
    ensures Firsts(tail) == Leftover(c)
    ensures RealSeconds(tail) == []
  {
    LeftoverShape(c);
    if |c| % 2 == 1 {
      assert tail[..0] == [];
    }
  }

  lemma RegroupTail<T>(f: seq<T>, l: seq<T>, s: seq<T>, c: seq<T>)
    requires multiset(f) + multiset(s) + multiset(l) == multiset(c)
    ensures multiset(f + l) + multiset(s + []) == multiset(c)
  {
    assert s + [] == s;
  }

  /**
   * For non-negative input, the first components of makePairsVector's pairs and
   * their non-sentinel second components hold exactly the input elements.
   */
  lemma SentinelPairingMultiset(c: seq<int>)
    requires forall k :: 0 <= k < |c| ==> c[k] >= 0
    ensures multiset(Firsts(SentinelPairing(c))) + multiset(RealSeconds(SentinelPairing(c))) == multiset(c)
  {
    var ps := Pairing(c);
    var tail: seq<Pair> := if |c| % 2 == 1 then [Pair(c[|c| - 1], Sentinel)] else [];
    assert SentinelPairing(c) == ps + tail;
    PairingMultiset(c);
    PairingNoSentinel(c);
    SentinelTail(c, tail);
    RealSecondsAppend(ps, tail);
    FirstsSecondsAppend(ps, tail);
    RegroupTail(Firsts(ps), Leftover(c), Seconds(ps), c);
  }
}
