/**
 * The PmergeMe class: the recursive Ford-Johnson template (fordJohnson,
 * findInsertPosition, isSorted) and the non-recursive vector variant
 * (parseInput, makePairsVector, sortBigVector, insertSmallsVector).
 */
module FordJohnsonSort {
  import opened CNumbers
  import opened Sequences
  import opened Pairs
  import opened Jacobsthal
  import opened Insertion

  /** A command-line argument parseInput accepts: a non-empty digit string whose value fits an int. */
  predicate Accepted(s: string) {
    |s| > 0 && AllDigits(s) && DigitsValue(s) <= INT_MAX
  }

  /** The index of the first argument parseInput rejects, or |args| when it accepts them all. */
  function FirstRejected(args: seq<string>): (i: nat)
    ensures i <= |args|
    ensures forall k :: 0 <= k < i ==> Accepted(args[k])
    ensures i < |args| ==> !Accepted(args[i])
    decreases |args|
  {
    if args == [] then 0
    else if !Accepted(args[0]) then 0
    else 1 + FirstRejected(args[1..])
  }

  /** The values of digit-string arguments. */
  function Values(args: seq<string>): (vs: seq<int>)
    requires forall k :: 0 <= k < |args| ==> AllDigits(args[k])
    ensures |vs| == |args|
  {
    seq(|args|, k requires 0 <= k < |args| => DigitsValue(args[k]))
  }

  /** The head of a chain holding exactly the larger elements is the larger element of some pair. */
  lemma SeedFound(pairs: seq<Pair>, main: seq<int>)
    requires |main| > 0 && multiset(main) == multiset(Seconds(pairs))
    ensures FirstMatch(pairs, main[0]) < |pairs|
  {
    assert main[0] in multiset(Seconds(pairs));
    FirstMatchFinds(pairs, main[0]);
  }

  /** Moving the smaller element of pair j from the pairs to the chain head loses nothing. */
  lemma SeedMultiset(pairs: seq<Pair>, j: nat, main: seq<int>)
    requires j < |pairs|
    ensures multiset([pairs[j].first] + main) + multiset(Firsts(RemoveAt(pairs, j)))
      == multiset(main) + multiset(Firsts(pairs))
  {
    RemoveAtMultiset(pairs, j);
  }

  /** Erasing a pair keeps the others ordered. */
  lemma RemoveAtOrdered(pairs: seq<Pair>, j: nat)
    requires j < |pairs| && Ordered(pairs)
    ensures Ordered(RemoveAt(pairs, j))
  {
    var r := RemoveAt(pairs, j);
    forall k | 0 <= k < |r|
      ensures r[k].first <= r[k].second
    {
      assert r[k] == pairs[if k < j then k else k + 1];
    }
  }

  /** A smaller partner of the head of a sorted chain can go in front of it. */
  lemma SeedSorted(main: seq<int>, x: int)
    requires |main| > 0 && Sorted(main) && x <= main[0]
    ensures Sorted([x] + main)
  {
  }

  /**
   * When the chain holds exactly the distinct larger elements and pair j's is its
   * head, every other pair's larger element is in the chain.
   */
  lemma SeedLocatable(pairs: seq<Pair>, j: nat, main: seq<int>)
    requires j < |pairs| && multiset(main) == multiset(Seconds(pairs))
    ensures forall k :: 0 <= k < |RemoveAt(pairs, j)| ==> RemoveAt(pairs, j)[k].second in main
  {
    var r := RemoveAt(pairs, j);
    forall k | 0 <= k < |r|
      ensures r[k].second in main
    {
      var k' := if k < j then k else k + 1;
      assert r[k] == pairs[k'];
      assert Seconds(pairs)[k'] == pairs[k'].second;
      assert pairs[k'].second in multiset(Seconds(pairs));
    }
  }

  /**
   * The elements fordJohnson ends with before the straggler, together with what
   * pairing left over, are exactly those it started with.
   */
  lemma FordJohnsonMultiset(c: seq<int>, main: seq<int>, main': seq<int>, pairs': seq<Pair>, r: seq<int>)
    requires multiset(main) == multiset(Seconds(Pairing(c)))
    requires multiset(main') + multiset(Firsts(pairs')) == multiset(main) + multiset(Firsts(Pairing(c)))
    requires multiset(r) == multiset(main') + multiset(Firsts(pairs'))
    ensures multiset(r) + multiset(Leftover(c)) == multiset(c)
  {
    PairingMultiset(c);
  }

  class PmergeMe {
    var inputVector: seq<int>
    var inputDeque: seq<int>
    var pairsVector: seq<Pair>
    var mainVector: seq<int>
    var elementsAmount: nat
    var compareCount: nat

    /** parseInput keeps the two input containers equal and every input in 0..INT_MAX. */
    ghost predicate Valid()
      reads this
    {
      inputDeque == inputVector &&
      forall k :: 0 <= k < |inputVector| ==> 0 <= inputVector[k] <= INT_MAX
    }

    constructor ()
      ensures Valid()
      ensures inputVector == [] && pairsVector == [] && mainVector == []
    {
      inputVector := [];
      inputDeque := [];
      pairsVector := [];
      mainVector := [];
    }

    /** validateNumber: accepts exactly the non-empty strings of decimal digits. */
    method ValidateNumber(s: string) returns (ok: bool)
      ensures ok <==> |s| > 0 && AllDigits(s)
    {
      if |s| == 0 {
        return false;
      }
      var i := 0;
      while i < |s|
        invariant 0 <= i <= |s|
        invariant forall k :: 0 <= k < i ==> IsDigit(s[k])
      {
        if !IsDigit(s[i]) {
          return false;
        }
        i := i + 1;
      }
      return true;
    }

    /**
     * parseInput over argv[1..]: each argument is validated, read as a number and
     * range-checked, then appended to both containers. The first rejected argument
     * stops the loop (the source throws there), after the accepted ones before it
     * have been appended.
     */
    method ParseInput(args: seq<string>) returns (ok: bool)
      requires Valid()
      modifies this`inputVector, this`inputDeque, this`elementsAmount
      ensures Valid()
      ensures ok <==> FirstRejected(args) == |args|
      ensures inputVector == old(inputVector) + Values(args[..FirstRejected(args)])
      ensures inputDeque == inputVector
      ensures ok ==> elementsAmount == |args|
      ensures !ok ==> elementsAmount == old(elementsAmount)
    {
      var i := 0;
      while i < |args|
        invariant 0 <= i <= |args|
        invariant forall k :: 0 <= k < i ==> Accepted(args[k])
        invariant inputVector == old(inputVector) + Values(args[..i])
        invariant Valid()
        invariant elementsAmount == old(elementsAmount)
      {
        var valid := ValidateNumber(args[i]);
        if !valid {
          return false;
        }
        // `ss >> value` into a long: a digit string too long for a long reads as
        // LONG_MAX, which the range check rejects just as it rejects the exact value.
        var value := DigitsValue(args[i]);
        if value < 0 || value > INT_MAX {
          return false;
        }
        assert Values(args[..i + 1]) == Values(args[..i]) + [value];
        inputVector := inputVector + [value];
        inputDeque := inputDeque + [value];
        i := i + 1;
      }
      assert args[..i] == args;
      elementsAmount := |args|;
      return true;
    }

    /**
     * makePairsVector: adjacent inputs become ordered pairs, and an odd last input
     * x becomes (x, -1).
     */
    method MakePairsVector()
      modifies this`pairsVector
      ensures pairsVector == SentinelPairing(inputVector)
    {
      pairsVector := [];
      var i := 0;
      while i + 1 < |inputVector|
        invariant i <= |inputVector|
        invariant pairsVector + Pairing(inputVector[i..]) == Pairing(inputVector)
        invariant Leftover(inputVector[i..]) == Leftover(inputVector)
      {
        var a := inputVector[i];
        var b := inputVector[i + 1];
        PairingLoopStep(inputVector, i, pairsVector);
        if a < b {
          pairsVector := pairsVector + [Pair(a, b)];
        } else {
          pairsVector := pairsVector + [Pair(b, a)];
        }
        i := i + 2;
      }
      SentinelPairingLoopEnd(inputVector, i, pairsVector);
      if i < |inputVector| {
        pairsVector := pairsVector + [Pair(inputVector[i], Sentinel)];
      }
    }

    /** sortBigVector: mainVector holds the larger elements, sentinel excluded, sorted (std::sort). */
    method SortBigVector()
      modifies this`mainVector
      ensures Sorted(mainVector)
      ensures multiset(mainVector) == multiset(RealSeconds(pairsVector))
    {
      mainVector := [];
      var i := 0;
      while i < |pairsVector|
        invariant i <= |pairsVector|
        invariant mainVector == RealSeconds(pairsVector[..i])
      {
        assert pairsVector[..i + 1][..i] == pairsVector[..i];
        if pairsVector[i].second != Sentinel {
          mainVector := mainVector + [pairsVector[i].second];
        }
        i := i + 1;
      }
      assert pairsVector[..i] == pairsVector;
      mainVector := Sequences.Sort(mainVector);
    }

    /** findBigPositionVector: std::lower_bound of big over the whole main chain. */
    method FindBigPositionVector(big: int) returns (p: nat)
      ensures p <= |mainVector|
      ensures forall k :: 0 <= k < p ==> mainVector[k] < big
      ensures p < |mainVector| ==> big <= mainVector[p]
    {
      p := LowerBound(mainVector, |mainVector|, big);
    }

    /**
     * The body of the insertion loop of insertSmallsVector for pair i: its first
     * component is inserted by lower_bound in the prefix before its larger
     * element, or over the whole chain for the sentinel pair. The chain gains
     * exactly that element, and a sorted chain stays sorted.
     */
    method InsertPendingVector(i: nat)
      requires i < |pairsVector|
      modifies this`mainVector
      ensures multiset(mainVector) == multiset(old(mainVector)) + multiset{pairsVector[i].first}
      ensures Sorted(old(mainVector)) && OrderedBelowSentinel(pairsVector) ==> Sorted(mainVector)
    {
      var small := pairsVector[i].first;
      var big := pairsVector[i].second;
      var limit: nat;
      if big == Sentinel {
        limit := |mainVector|;
      } else {
        limit := FindBigPositionVector(big);
      }
      var pos := LowerBound(mainVector, limit, small);
      if Sorted(mainVector) && OrderedBelowSentinel(pairsVector) {
        InsertBelowKeepsSorted(mainVector, limit, small);
      }
      mainVector := InsertAt(mainVector, pos, small);
    }

    /**
     * insertSmallsVector: the first components are inserted in Jacobsthal order,
     * each by lower_bound in the prefix before its larger element (over the whole
     * chain for the sentinel pair). Every first component ends up in the chain,
     * and a sorted chain stays sorted.
     */
    method InsertSmallsVector()
      modifies this`mainVector
      ensures multiset(mainVector) == multiset(old(mainVector)) + multiset(Firsts(pairsVector))
      ensures Sorted(old(mainVector)) && OrderedBelowSentinel(pairsVector) ==> Sorted(mainVector)
    {
      ghost var ps := pairsVector;
      var order := IndexOrder(|pairsVector|);
      assert IndicesBelow(order, |ps|) && multiset(FirstsAt(ps, order)) == multiset(Firsts(ps)) by {
        FirstsAtPermutation(ps, order);
      }
      ghost var smalls := FirstsAt(ps, order);
      ghost var main0 := mainVector;
      ghost var sorting := Sorted(main0) && OrderedBelowSentinel(ps);
      var k := 0;
      while k < |order|
        invariant k <= |order| && pairsVector == ps
        invariant multiset(mainVector) == multiset(main0) + multiset(smalls[..k])
        invariant sorting ==> Sorted(mainVector)
      {
        InsertPendingVector(order[k]);
        assert smalls[..k + 1] == smalls[..k] + [smalls[k]];
        k := k + 1;
      }
      assert smalls[..k] == smalls;
    }

    /**
     * fordJohnsonVector: pairs, sorted larger elements, then the insertions. The
     * chain ends sorted, and for non-negative input (which parseInput guarantees)
     * it is a permutation of the input.
     */
    method FordJohnsonVector()
      modifies this`pairsVector, this`mainVector
      ensures pairsVector == SentinelPairing(inputVector)
      ensures Sorted(mainVector)
      ensures (forall k :: 0 <= k < |inputVector| ==> inputVector[k] >= 0) ==>
        multiset(mainVector) == multiset(inputVector)
    {
      MakePairsVector();
      SortBigVector();
      SentinelPairingOrdered(inputVector);
      InsertSmallsVector();
      if forall k :: 0 <= k < |inputVector| ==> inputVector[k] >= 0 {
        SentinelPairingMultiset(inputVector);
      }
    }

    /**
     * sort: parse the arguments, then sort them. On success the chain is the
     * sorted permutation of everything parsed so far. The deque run repeats the
     * same steps on an equal copy of the input and is not modelled separately.
     */
    method Sort(args: seq<string>) returns (ok: bool)
      requires Valid()
      modifies this`inputVector, this`inputDeque, this`elementsAmount, this`pairsVector, this`mainVector
      ensures Valid()
      ensures ok <==> FirstRejected(args) == |args|
      ensures inputVector == old(inputVector) + Values(args[..FirstRejected(args)])
      ensures ok ==> Sorted(mainVector) && multiset(mainVector) == multiset(inputVector)
      ensures !ok ==> mainVector == old(mainVector) && pairsVector == old(pairsVector)
    {
      ok := ParseInput(args);
      if ok {
        FordJohnsonVector();
      }
    }

    /**
     * findInsertPosition: a search for value in c[..limit]. Ranges of up to two
     * elements are decided with one counted comparison; longer ones by a binary
     * search that counts one comparison per halving. On a sorted range the result
     * is the lower bound.
     */
    method FindInsertPosition(c: seq<int>, value: int, limit: nat, isStraggler: bool) returns (pos: nat)
      requires limit <= |c|
      modifies this`compareCount
      ensures pos <= limit
      ensures Sorted(c[..limit]) ==> pos == LowerBound(c, limit, value)
      ensures limit == 0 ==> compareCount == old(compareCount)
      ensures 1 <= limit <= 2 ==> compareCount == old(compareCount) + 1
      ensures limit >= 3 ==> old(compareCount) + 1 <= compareCount <= old(compareCount) + Bits(limit)
    {
      ghost var sorted := Sorted(c[..limit]);
      var left := 0;
      var right := limit;
      var dist := right - left;
      if dist == 0 {
        pos := left;
      } else if dist == 1 {
        compareCount := compareCount + 1;
        if value <= c[left] {
          pos := left;
        } else {
          pos := left + 1;
        }
      } else if dist == 2 {
        compareCount := compareCount + 1;
        if value <= c[left + 1] {
          pos := if value <= c[left] then left else left + 1;
        } else {
          pos := left + 2;
          if sorted {
            assert c[..limit][0] <= c[..limit][1];
          }
        }
      } else {
        var localCompare := 0;
        while left < right
          invariant 0 <= left <= right <= limit
          invariant compareCount == old(compareCount) + localCompare
          invariant localCompare + Bits(right - left) <= Bits(limit)
          invariant localCompare >= 1 || right - left == limit
          invariant sorted ==> Brackets(c, limit, value, left, right)
          decreases right - left
        {
          compareCount := compareCount + 1;
          localCompare := localCompare + 1;
          var d := right - left;
          var mid := left + d / 2;
          if sorted {
            BracketsStep(c, limit, value, left, right, mid);
          }
          if value <= c[mid] {
            right := mid;
          } else {
            left := mid + 1;
          }
          BitsMonotone(right - left, d / 2);
        }
        pos := left;
      }
      if sorted {
        BracketsLowerBound(c, limit, value, pos);
      }
    }

    /** isSorted: true exactly when no element is less than the one before it. */
    method IsSorted(c: seq<int>) returns (b: bool)
      ensures b <==> Sorted(c)
    {
      if |c| < 2 {
        return true;
      }
      var it := 0;
      while it + 1 < |c|
        invariant 0 <= it < |c|
        invariant Sorted(c[..it + 1])
      {
        if c[it + 1] < c[it] {
          return false;
        }
        SortedExtend(c, it + 1);
        it := it + 1;
      }
      assert c[..it + 1] == c;
      return true;
    }

    /** The pairing loop of fordJohnson: one counted comparison per pair. */
    method MakePairs(c: seq<int>) returns (pairs: seq<Pair>)
      modifies this`compareCount
      ensures pairs == Pairing(c)
      ensures compareCount == old(compareCount) + |c| / 2
    {
      pairs := [];
      var i := 0;
      while i + 1 < |c|
        invariant i <= |c|
        invariant pairs + Pairing(c[i..]) == Pairing(c)
        invariant compareCount == old(compareCount) + |pairs|
      {
        PairingLoopStep(c, i, pairs);
        compareCount := compareCount + 1;
        if c[i] < c[i + 1] {
          pairs := pairs + [Pair(c[i], c[i + 1])];
        } else {
          pairs := pairs + [Pair(c[i + 1], c[i])];
        }
        i := i + 2;
      }
      assert pairs + [] == pairs;
      PairingLength(c);
    }

    /** The larger element of every pair, in pair order: the chain fordJohnson sorts recursively. */
    method BigsOf(pairs: seq<Pair>) returns (main: seq<int>)
      ensures main == Seconds(pairs)
    {
      main := [];
      var i := 0;
      while i < |pairs|
        invariant i <= |pairs|
        invariant main == Seconds(pairs[..i])
      {
        main := main + [pairs[i].second];
        i := i + 1;
      }
      assert pairs[..i] == pairs;
    }

    /**
     * The a0 step of fordJohnson: the partner of the first pair whose larger
     * element heads the sorted chain goes in front of it, and that pair is erased.
     */
    method Seed(main: seq<int>, pairs: seq<Pair>) returns (main': seq<int>, pairs': seq<Pair>)
      requires |main| > 0
      ensures var j := FirstMatch(pairs, main[0]);
        if j < |pairs| then main' == [pairs[j].first] + main && pairs' == RemoveAt(pairs, j)
        else main' == main && pairs' == pairs
    {
      main', pairs' := main, pairs;
      var j := 0;
      while j < |pairs|
        invariant j <= |pairs|
        invariant forall k :: 0 <= k < j ==> pairs[k].second != main[0]
      {
        if main[0] == pairs[j].second {
          main' := [pairs[j].first] + main;
          pairs' := RemoveAt(pairs, j);
          return;
        }
        j := j + 1;
      }
    }

    /**
     * The b_pos loop of fordJohnson: for each chain index i, the first pair whose
     * larger element is main[i] records i. An entry never written stays 0.
     */
    method LocateBigs(main: seq<int>, pairs: seq<Pair>) returns (bPos: seq<nat>)
      ensures |bPos| == |pairs|
      ensures forall j :: 0 <= j < |pairs| ==> bPos[j] == LastHit(main, pairs, j, |main|)
    {
      bPos := seq(|pairs|, _ => 0);
      var i := 0;
      while i < |main|
        invariant i <= |main|
        invariant |bPos| == |pairs|
        invariant forall j :: 0 <= j < |pairs| ==> bPos[j] == LastHit(main, pairs, j, i)
      {
        var j := 0;
        while j < |pairs|
          invariant j <= |pairs|
          invariant forall k :: 0 <= k < j ==> pairs[k].second != main[i]
        {
          if main[i] == pairs[j].second {
            bPos := bPos[j := i];
            break;
          }
          j := j + 1;
        }
        i := i + 1;
      }
    }

    /** The b_pos update after an insertion at index at: entries at or beyond it move up by one. */
    method ShiftPositions(bPos: seq<nat>, at: nat) returns (b: seq<nat>)
      ensures ShiftedBy(bPos, b, at)
    {
      b := bPos;
      var j := 0;
      while j < |b|
        invariant j <= |b| == |bPos|
        invariant forall t :: 0 <= t < j ==> b[t] == if bPos[t] >= at then bPos[t] + 1 else bPos[t]
        invariant forall t :: j <= t < |b| ==> b[t] == bPos[t]
      {
        if b[j] >= at {
          b := b[j := b[j] + 1];
        }
        j := j + 1;
      }
    }

    /**
     * The insertion loop of fordJohnson: for each index of order, the pair's
     * smaller element is inserted where findInsertPosition puts it in the chain
     * before the pair's larger element, and b_pos is shifted. Every smaller element
     * ends up in the chain; if every entry of b_pos locates its pair and the pairs
     * are ordered, a sorted chain stays sorted.
     */
    method InsertSmalls(main: seq<int>, pairs: seq<Pair>, bPos: seq<nat>, order: seq<nat>) returns (r: seq<int>)
      requires Bounded(main, pairs, bPos)
      requires IsIndexOrder(order, |pairs|)
      modifies this`compareCount
      ensures multiset(r) == multiset(main) + multiset(Firsts(pairs))
      ensures Sorted(main) && Ordered(pairs) && Located(main, pairs, bPos) ==> Sorted(r)
      ensures compareCount >= old(compareCount)
    {
      FirstsAtPermutation(pairs, order);
      ghost var sorting := Sorted(main) && Ordered(pairs) && Located(main, pairs, bPos);
      r := main;
      var b := bPos;
      var k := 0;
      while k < |order|
        invariant k <= |order|
        invariant IndicesBelow(order[..k], |pairs|)
        invariant multiset(r) == multiset(main) + multiset(FirstsAt(pairs, order[..k]))
        invariant Bounded(r, pairs, b)
        invariant sorting ==> Sorted(r) && Located(r, pairs, b)
        invariant compareCount >= old(compareCount)
      {
        var idx := order[k];
        var small := pairs[idx].first;
        var limit := b[idx];
        var pos := FindInsertPosition(r, small, limit, false);
        var insIdx := pos;
        InsertNextFirst(r, multiset(main), pairs, order, k, pos);
        var b' := ShiftPositions(b, insIdx);
        ShiftKeepsBounded(r, pairs, b, b', insIdx);
        if sorting {
          SortedTake(r, limit);
          InsertBelowKeepsSorted(r, limit, small);
          ShiftKeepsLocated(r, pairs, b, b', insIdx, small);
        }
        r := InsertAt(r, pos, small);
        b := b';
        k := k + 1;
      }
      assert order[..k] == order;
    }

    /**
     * fordJohnson: pair, sort the larger elements recursively, seed the chain with
     * a0, insert the other smaller elements in Jacobsthal order, then the
     * straggler. The result is always a permutation of c; it is sorted when the
     * elements of c are distinct: b_pos is built by matching values, so with equal
     * larger elements an entry can stay 0 and bound a search too tightly. Pairing
     * alone counts |c|/2 comparisons.
     */
    method FordJohnson(c: seq<int>) returns (r: seq<int>)
      modifies this`compareCount
      ensures multiset(r) == multiset(c)
      ensures Distinct(c) ==> Sorted(r)
      ensures |c| <= 1 ==> r == c
      ensures compareCount >= old(compareCount) + |c| / 2
      decreases |c|
    {
      if |c| <= 1 {
        return c;
      }
      var hasStraggler := |c| % 2 != 0;
      var straggler := 0;
      var pairs := MakePairs(c);
      if hasStraggler {
        straggler := c[|c| - 1];
      }
      var bigs := BigsOf(pairs);
      PairingLength(c);
      if Distinct(c) {
        PairingDistinct(c);
      }
      var main := FordJohnson(bigs);
      r := Merge(c, pairs, main, hasStraggler, straggler);
    }

    /**
     * The second half of fordJohnson, once the larger elements are sorted: the
     * smaller elements of the pairs are merged into the chain, then the straggler.
     */
    method Merge(c: seq<int>, pairs: seq<Pair>, main: seq<int>, hasStraggler: bool, straggler: int) returns (r: seq<int>)
      requires |c| >= 2 && pairs == Pairing(c)
      requires multiset(main) == multiset(Seconds(pairs))
      requires hasStraggler <==> |c| % 2 != 0
      requires hasStraggler ==> straggler == c[|c| - 1]
      requires Distinct(c) ==> Sorted(main)
      modifies this`compareCount
      ensures multiset(r) == multiset(c)
      ensures Distinct(c) ==> Sorted(r)
      ensures compareCount >= old(compareCount)
    {
      r := MergeSmalls(c, pairs, main);
      LeftoverShape(c);
      if hasStraggler {
        var pos := FindInsertPosition(r, straggler, |r|, true);
        assert r[..|r|] == r;
        if Distinct(c) {
          InsertBelowKeepsSorted(r, |r|, straggler);
        }
        r := InsertAt(r, pos, straggler);
      }
    }

    /**
     * Seed the chain with a0, locate the larger elements, and insert the other
     * smaller elements in Jacobsthal order.
     */
    method MergeSmalls(c: seq<int>, pairs: seq<Pair>, main: seq<int>) returns (r: seq<int>)
      requires |c| >= 2 && pairs == Pairing(c)
      requires multiset(main) == multiset(Seconds(pairs))
      requires Distinct(c) ==> Sorted(main)
      modifies this`compareCount
      ensures multiset(r) + multiset(Leftover(c)) == multiset(c)
      ensures Distinct(c) ==> Sorted(r)
      ensures compareCount >= old(compareCount)
    {
      PairingLength(c);
      var main', pairs' := Seed(main, pairs);
      SeedFound(pairs, main);
      ghost var j := FirstMatch(pairs, main[0]);
      SeedMultiset(pairs, j, main);
      PairingOrdered(c);
      RemoveAtOrdered(pairs, j);
      var bPos := LocateBigs(main', pairs');
      var order := IndexOrder(|pairs'|);
      if Distinct(c) {
        PairingDistinct(c);
        SeedSorted(main, pairs[j].first);
        RemoveAtMultiset(pairs, j);
        SeedLocatable(pairs, j, main);
        LocatedByLastHit(main', pairs', bPos);
      }
      r := InsertSmalls(main', pairs', bPos, order);
      FordJohnsonMultiset(c, main, main', pairs', r);
    }
  }
}
