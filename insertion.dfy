/**
 * The reasoning behind the insertion phase of the Ford-Johnson sort: where a
 * small element may go, the position map `b_pos` of the larger elements in the
 * main chain, and the comparison bound of the binary search.
 */
module Insertion {
  import opened Sequences
  import opened Pairs

  /** Every pair holds its smaller element first. */
  ghost predicate Ordered(ps: seq<Pair>) {
    forall k :: 0 <= k < |ps| ==> ps[k].first <= ps[k].second
  }

  /** Pairing orders every pair. */
  lemma PairingOrdered(c: seq<int>)
    ensures Ordered(Pairing(c))
  {
    PairingShape(c);
  }

  /** The pairs without the sentinel pair are ordered: what makePairsVector guarantees. */
  ghost predicate OrderedBelowSentinel(ps: seq<Pair>) {
    forall k :: 0 <= k < |ps| && ps[k].second != Sentinel ==> ps[k].first <= ps[k].second
  }

  /** The position map has an entry per pair, and each entry indexes that pair's larger element in main. */
  ghost predicate Located(main: seq<int>, ps: seq<Pair>, bPos: seq<nat>) {
    |bPos| == |ps| && forall k :: 0 <= k < |ps| ==> bPos[k] < |main| && main[bPos[k]] == ps[k].second
  }

  /** The position map has an entry per pair and no entry points past the end of main. */
  ghost predicate Bounded(main: seq<int>, ps: seq<Pair>, bPos: seq<nat>) {
    |bPos| == |ps| && forall k :: 0 <= k < |ps| ==> bPos[k] <= |main|
  }

  /** after is before with every entry at or beyond `at` moved up by one: the b_pos update after an insertion at `at`. */
  ghost predicate ShiftedBy(before: seq<nat>, after: seq<nat>, at: nat) {
    |after| == |before| &&
    forall j :: 0 <= j < |before| ==> after[j] == if before[j] >= at then before[j] + 1 else before[j]
  }

  /**
   * Inserting v at the lower bound of v in main[..limit] keeps a sorted main
   * sorted, provided the element at limit (if any) is not below v: this is why
   * bounding the search by the position of the pair's larger element is sound.
   */
  lemma InsertBelowKeepsSorted(main: seq<int>, limit: nat, v: int)
    requires Sorted(main) && limit <= |main|
    requires limit < |main| ==> v <= main[limit]
    ensures Sorted(InsertAt(main, LowerBound(main, limit, v), v))
  {
    var p := LowerBound(main, limit, v);
    if p < |main| {
      if p == limit {
        assert v <= main[p];
      } else {
        assert v <= main[p];
      }
    }
    InsertKeepsSorted(main, p, v);
  }

  /** Moving the map entries at or beyond the insertion point keeps every entry on its larger element. */
  lemma ShiftKeepsLocated(main: seq<int>, ps: seq<Pair>, bPos: seq<nat>, bPos': seq<nat>, at: nat, v: int)
    requires Located(main, ps, bPos) && at <= |main|
    requires ShiftedBy(bPos, bPos', at)
    ensures Located(InsertAt(main, at, v), ps, bPos')
  {
    var main' := InsertAt(main, at, v);
    forall k | 0 <= k < |ps|
      ensures bPos'[k] < |main'| && main'[bPos'[k]] == ps[k].second
    {
      if bPos[k] >= at {
        assert main'[bPos[k] + 1] == main[bPos[k]];
      } else {
        assert main'[bPos[k]] == main[bPos[k]];
      }
    }
  }

  /** Moving the map entries at or beyond the insertion point keeps every entry within main. */
  lemma ShiftKeepsBounded(main: seq<int>, ps: seq<Pair>, bPos: seq<nat>, bPos': seq<nat>, at: nat)
    requires Bounded(main, ps, bPos) && at <= |main|
    requires ShiftedBy(bPos, bPos', at)
    ensures forall k :: 0 <= k < |ps| ==> bPos'[k] <= |main| + 1
  {
  }

  /** The index of the first pair whose larger element is v, or |ps| when there is none. */
  function FirstMatch(ps: seq<Pair>, v: int): (j: nat)
    ensures j <= |ps|
    ensures j < |ps| ==> ps[j].second == v
    ensures forall k :: 0 <= k < j ==> ps[k].second != v
    decreases |ps|
  {
    if ps == [] then 0
    else if ps[0].second == v then 0
    else 1 + FirstMatch(ps[1..], v)
  }

  /** When the larger elements are distinct, pair j is the first pair whose larger element is its own. */
  lemma FirstMatchOfDistinct(ps: seq<Pair>, j: nat)
    requires Distinct(Seconds(ps)) && j < |ps|
    ensures FirstMatch(ps, ps[j].second) == j
  {
    forall k | 0 <= k < |ps| && k != j
      ensures ps[k].second != ps[j].second
    {
      assert Seconds(ps)[k] == ps[k].second && Seconds(ps)[j] == ps[j].second;
    }
  }

  /** A value that some pair holds as its larger element is found. */
  lemma FirstMatchFinds(ps: seq<Pair>, v: int)
    requires v in Seconds(ps)
    ensures FirstMatch(ps, v) < |ps|
  {
    var k :| 0 <= k < |Seconds(ps)| && Seconds(ps)[k] == v;
    assert ps[k].second == v;
  }

  /**
   * The entry that the b_pos loop leaves for pair j after scanning main[..i]: the
   * last index i' < i whose element is first matched by pair j, or 0 when there
   * is none (the initial value of b_pos).
   */
  function LastHit(main: seq<int>, ps: seq<Pair>, j: nat, i: nat): (r: nat)
    requires i <= |main|
    ensures r < i || r == 0
    decreases i
  {
    if i == 0 then 0
    else if FirstMatch(ps, main[i - 1]) == j then i - 1
    else LastHit(main, ps, j, i - 1)
  }

  /**
   * If pair j is the first pair holding its larger element and that element
   * occurs in main[..i], the entry for pair j indexes an occurrence of it.
   */
  lemma {:induction false} LastHitFinds(main: seq<int>, ps: seq<Pair>, j: nat, i: nat, w: nat)
    requires i <= |main| && w < i && j < |ps|
    requires main[w] == ps[j].second && FirstMatch(ps, ps[j].second) == j
    ensures LastHit(main, ps, j, i) < i
    ensures main[LastHit(main, ps, j, i)] == ps[j].second
    decreases i
  {
    if FirstMatch(ps, main[i - 1]) != j {
      assert w < i - 1;
      LastHitFinds(main, ps, j, i - 1, w);
    }
  }

  /** A pair none of whose matches occur in main[..i] keeps the initial entry 0. */
  lemma {:induction false} LastHitMisses(main: seq<int>, ps: seq<Pair>, j: nat, i: nat)
    requires i <= |main|
    requires forall w :: 0 <= w < i ==> FirstMatch(ps, main[w]) != j
    ensures LastHit(main, ps, j, i) == 0
    decreases i
  {
    if i > 0 {
      LastHitMisses(main, ps, j, i - 1);
    }
  }

  /**
   * The map the b_pos loop builds locates every pair when the larger elements
   * are distinct and each of them occurs in main.
   */
  lemma LocatedByLastHit(main: seq<int>, ps: seq<Pair>, bPos: seq<nat>)
    requires Distinct(Seconds(ps))
    requires forall k :: 0 <= k < |ps| ==> ps[k].second in main
    requires |bPos| == |ps| && forall j :: 0 <= j < |ps| ==> bPos[j] == LastHit(main, ps, j, |main|)
    ensures Located(main, ps, bPos)
  {
    forall k | 0 <= k < |ps|
      ensures bPos[k] < |main| && main[bPos[k]] == ps[k].second
    {
      var w :| 0 <= w < |main| && main[w] == ps[k].second;
      FirstMatchOfDistinct(ps, k);
      LastHitFinds(main, ps, k, |main|, w);
    }
  }

  /** The number of binary digits of d: the most halvings a range of d elements takes to become empty. */
  function Bits(d: nat): nat
    decreases d
  {
    if d == 0 then 0 else 1 + Bits(d / 2)
  }

  lemma {:induction false} BitsMonotone(a: nat, b: nat)
    requires a <= b
    ensures Bits(a) <= Bits(b)
    decreases b
  {
    if a > 0 {
      BitsMonotone(a / 2, b / 2);
    }
  }
}
