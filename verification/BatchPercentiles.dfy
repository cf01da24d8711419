/** The one-pass query for several percentiles against separate queries. */
module BatchPercentiles {
  import opened Bits
  import opened Buckets
  import opened HistogramModel
  import opened OrderStatistics
  import Counters

  /** The largest count looked for among the percentiles up to position i. */
  function MaxCount(total: int, ps: seq<real>, i: nat): (k: int)
    requires i < |ps|
    ensures k >= CountAtPercentile(total, ps[i]) && k >= 1
  {
    var k := CountAtPercentile(total, ps[i]);
    if i == 0 || MaxCount(total, ps, i - 1) <= k then k else MaxCount(total, ps, i - 1)
  }

  /** What the pass leaves at position i: the answer for the largest count
      asked for so far, or the count itself if the pass never reaches it. */
  function BatchValue(h: Hist, ps: seq<real>, i: nat): int
    requires Valid(h) && i < |ps|
  {
    var idx := FirstReaching(h.counts, MaxCount(h.total, ps, i), 0);
    if idx == -1 then CountAtPercentile(h.total, ps[i])
    else HighestEquivalent(h.cfg, ValueAtIndex(h.cfg, idx))
  }

  lemma {:induction false} AscendingMaxCount(total: int, ps: seq<real>, i: nat)
    requires total >= 1 && i < |ps| && forall j, k :: 0 <= j < k < |ps| ==> ps[j] <= ps[k]
    ensures MaxCount(total, ps, i) == CountAtPercentile(total, ps[i])
    decreases i
  {
    hide CountAtPercentile;
    if i > 0 {
      AscendingMaxCount(total, ps, i - 1);
      CountBounds(total, ps[i - 1], ps[i]);
    }
  }

  lemma {:induction false} MaxCountBound(total: int, ps: seq<real>, i: nat)
    requires total >= 1 && i < |ps|
    ensures 1 <= MaxCount(total, ps, i) <= total
    decreases i
  {
    hide CountAtPercentile;
    CountBounds(total, ps[i], ps[i]);
    if i > 0 { MaxCountBound(total, ps, i - 1); }
  }

  /** A non-empty histogram reaches every count up to its total. */
  lemma Reaches(c: Config, log: seq<Rec>, k: int)
    requires Shaped(c) && 1 <= k <= Replay(c, log).total
    ensures FirstReaching(Replay(c, log).counts, k, 0) != -1
  {
    hide Shaped, Replay;
    ReplaySum(c, log);
    CountsNonEmptyIfTotal(Replay(c, log).counts, k);
  }

  lemma CountsNonEmptyIfTotal(counts: seq<int>, k: int)
    requires 1 <= k <= SumOf(counts)
    ensures FirstReaching(counts, k, 0) != -1
  {
    assert PrefixSum(counts, |counts|) >= k;
    assert |counts| > 0;
  }

  /** The ranks of the requests. */
  predicate AreRanks(ks: seq<int>, total: int, ps: seq<real>) {
    |ks| == |ps| && forall j :: 0 <= j < |ps| ==> IsRank(ks[j], total, ps[j])
  }

  /** The count in force at an entry is the largest rank up to it. */
  lemma {:induction false} MaxCountIs(ks: seq<int>, total: int, ps: seq<real>, i: nat) returns (m: nat)
    requires AreRanks(ks, total, ps) && i < |ps|
    ensures m <= i && MaxCount(total, ps, i) == ks[m] && CountAtPercentile(total, ps[i]) == ks[i]
    ensures forall j :: 0 <= j <= i ==> ks[j] <= ks[m]
    decreases i
  {
    hide CountAtPercentile, IsRank;
    RankIs(total, ps[i], ks[i]);
    if i == 0 || MaxCount(total, ps, i - 1) <= ks[i] {
      m := i;
      if i > 0 { var _ := MaxCountIs(ks, total, ps, i - 1); }
    } else {
      m := MaxCountIs(ks, total, ps, i - 1);
    }
  }

  /** What the batch answers, for requests in any order: the highest value
      equivalent to the k-th smallest recorded one, k the largest rank asked for
      up to that entry. */
  lemma BatchIsOrderStatistic(c: Config, log: seq<Rec>, sorted: seq<int>, ps: seq<real>, ks: seq<int>, i: nat, m: nat)
    requires Shaped(c) && NaturalCounts(log) && AreRanks(ks, |sorted|, ps)
    requires Sorted(sorted) && multiset(sorted) == multiset(Values(c, log)) && sorted != []
    requires m <= i < |ps| && forall j :: 0 <= j <= i ==> ks[j] <= ks[m]
    ensures 1 <= ks[m] <= |sorted| && sorted[ks[m] - 1] >= 0
    ensures BatchValue(Replay(c, log), ps, i) == HighestEquivalent(c, sorted[ks[m] - 1])
  {
    hide Shaped, NaturalCounts, Values, Replay, HighestEquivalent, CountAtPercentile, IsRank, Sorted, MaxCount,
         BatchValue;
    var _ := MaxCountIs(ks, |sorted|, ps, i);
    BatchAtCount(c, log, sorted, ps, i);
  }

  lemma BatchAtCount(c: Config, log: seq<Rec>, sorted: seq<int>, ps: seq<real>, i: nat)
    requires Shaped(c) && NaturalCounts(log) && i < |ps|
    requires Sorted(sorted) && multiset(sorted) == multiset(Values(c, log)) && sorted != []
    ensures var k := MaxCount(|sorted|, ps, i);
            && k <= |sorted| && sorted[k - 1] >= 0
            && BatchValue(Replay(c, log), ps, i) == HighestEquivalent(c, sorted[k - 1])
  {
    hide Shaped, Replay, MaxCount, CountAtPercentile, FirstReaching, HighestEquivalent, ValueAtIndex, Values,
         NaturalCounts, CountsIndexFor, Sorted;
    TotalIsLength(c, log);
    assert |multiset(sorted)| == |multiset(Values(c, log))|;
    var k := MaxCount(|sorted|, ps, i);
    MaxCountBound(|sorted|, ps, i);
    SlotOfRank(c, log, sorted, k);
    SlotBounds(c, sorted[k - 1]);
  }

  /** For a non-empty histogram and a non-zero percentile, an entry of the batch
      equals the separate query exactly when both counts are reached in one slot. */
  lemma BatchEqualsSingleIff(c: Config, log: seq<Rec>, ps: seq<real>, i: nat)
    requires Shaped(c) && i < |ps| && Replay(c, log).total >= 1 && ps[i] != 0.0
    ensures var h := Replay(c, log);
            BatchValue(h, ps, i) == ValueAtPercentile(h, ps[i])
            <==> FirstReaching(h.counts, MaxCount(h.total, ps, i), 0)
                 == FirstReaching(h.counts, CountAtPercentile(h.total, ps[i]), 0)
  {
    hide Shaped, Replay, MaxCount, CountAtPercentile, FirstReaching, HighestEquivalent, ValueAtIndex;
    var h := Replay(c, log);
    MaxCountBound(h.total, ps, i);
    CountBounds(h.total, ps[i], ps[i]);
    Reaches(c, log, MaxCount(h.total, ps, i));
    Reaches(c, log, CountAtPercentile(h.total, ps[i]));
    SlotsDiffer(c, FirstReaching(h.counts, MaxCount(h.total, ps, i), 0),
                FirstReaching(h.counts, CountAtPercentile(h.total, ps[i]), 0));
  }

  /** Different slots have different highest values. */
  lemma SlotsDiffer(c: Config, i: nat, j: nat)
    requires Shaped(c)
    ensures HighestEquivalent(c, ValueAtIndex(c, i)) == HighestEquivalent(c, ValueAtIndex(c, j)) <==> i == j
  {
    hide Shaped, ValueAtIndex, LowestEquivalent, NextNonEquivalent;
    SlotsMeet(c, i);
    SlotsMeet(c, j);
    if i < j {
      ValueAtIndexStrict(c, i + 1, j + 1);
    } else if j < i {
      ValueAtIndexStrict(c, j + 1, i + 1);
    }
  }

  /** Ascending non-zero percentiles: the batch is the separate queries. */
  lemma AscendingBatchIsSeparateQueries(c: Config, log: seq<Rec>, ps: seq<real>, i: nat)
    requires Shaped(c) && i < |ps| && Replay(c, log).total >= 1 && ps[i] != 0.0
    requires forall j, k :: 0 <= j < k < |ps| ==> ps[j] <= ps[k]
    ensures BatchValue(Replay(c, log), ps, i) == ValueAtPercentile(Replay(c, log), ps[i])
  {
    hide Shaped, Replay, MaxCount, CountAtPercentile, BatchValue, ValueAtPercentile;
    AscendingMaxCount(Replay(c, log).total, ps, i);
    BatchEqualsSingleIff(c, log, ps, i);
  }

  // ----- exactly which requests the batch answers as separate queries -----

  /** Entry i agrees with the separate query on every histogram of total n. */
  ghost predicate AgreesOnTotal(c: Config, n: int, ps: seq<real>, i: nat)
    requires Shaped(c) && i < |ps|
  {
    forall log: seq<Rec> :: NaturalCounts(log) && Replay(c, log).total == n ==>
      BatchValue(Replay(c, log), ps, i) == ValueAtPercentile(Replay(c, log), ps[i])
  }

  /** A non-zero request is answered as a separate query, on every histogram of a
      given total, exactly when no earlier request asks for a larger rank. */
  lemma AgreesIffLargestRank(c: Config, n: int, ps: seq<real>, ks: seq<int>, i: nat)
    requires Shaped(c) && n >= 1 && i < |ps| && ps[i] != 0.0 && AreRanks(ks, n, ps)
    ensures (forall j :: 0 <= j < i ==> ks[j] <= ks[i]) <==> AgreesOnTotal(c, n, ps, i)
  {
    hide Shaped, MaxCount, CountAtPercentile, IsRank, AgreesOnTotal;
    var _ := MaxCountIs(ks, n, ps, i);
    AgreesIffLargestCount(c, n, ps, i);
  }

  lemma AgreesIffLargestCount(c: Config, n: int, ps: seq<real>, i: nat)
    requires Shaped(c) && n >= 1 && i < |ps| && ps[i] != 0.0
    ensures MaxCount(n, ps, i) == CountAtPercentile(n, ps[i]) <==> AgreesOnTotal(c, n, ps, i)
  {
    hide Shaped, Replay, MaxCount, CountAtPercentile, BatchValue, ValueAtPercentile, FirstReaching, NaturalCounts;
    var k := CountAtPercentile(n, ps[i]);
    if MaxCount(n, ps, i) == k {
      forall log: seq<Rec> | NaturalCounts(log) && Replay(c, log).total == n
        ensures BatchValue(Replay(c, log), ps, i) == ValueAtPercentile(Replay(c, log), ps[i])
      {
        BatchEqualsSingleIff(c, log, ps, i);
      }
    } else {
      MaxCountBound(n, ps, i);
      CountBounds(n, ps[i], ps[i]);
      var log := TwoSlots(c, 0, k, 1, n - k);
      SecondSlot(c);
      TwoSlotsReach(c, 0, k, 1, n - k, k);
      TwoSlotsReach(c, 0, k, 1, n - k, MaxCount(n, ps, i));
      BatchEqualsSingleIff(c, log, ps, i);
    }
  }

  lemma SecondSlot(c: Config)
    requires Shaped(c)
    ensures c.countsLen >= 2
  {
    hide Shl;
    ShlOrder(2, c.bucketCount + 1, c.halfMagnitude);
  }

  /** m values of slot i and then n values of slot j. */
  function TwoSlots(c: Config, i: nat, m: int, j: nat, n: int): seq<Rec>
    requires Shaped(c)
  {
    [Rec(ValueAtIndex(c, i), m, 0), Rec(ValueAtIndex(c, j), n, 0)]
  }

  /** The first m ranks are reached in slot i, the others in slot j. */
  lemma TwoSlotsReach(c: Config, i: nat, m: int, j: nat, n: int, k: int)
    requires Shaped(c) && i < j < c.countsLen && m >= 1 && n >= 1 && 1 <= k <= m + n
    ensures var log := TwoSlots(c, i, m, j, n);
            && NaturalCounts(log) && Replay(c, log).total == m + n
            && FirstReaching(Replay(c, log).counts, k, 0) == if k <= m then i else j
  {
    hide Shaped, Replay, ValueAtIndex, PrefixSum, FirstReaching, Accepts;
    var log := TwoSlots(c, i, m, j, n);
    assert NaturalCounts(log);
    TwoSlotsCounts(c, i, m, j, n);
    hide TwoSlots, NaturalCounts;
    var counts := Replay(c, log).counts;
    var s := if k <= m then i else j;
    forall q | 0 <= q <= s ensures PrefixSum(counts, q) < k {
      TwoSlotsPrefix(counts, i, m, j, n, q);
    }
    TwoSlotsPrefix(counts, i, m, j, n, s + 1);
    FirstReachingIs(counts, k, s);
  }

  lemma TwoSlotsCounts(c: Config, i: nat, m: int, j: nat, n: int)
    requires Shaped(c) && i < j < c.countsLen
    ensures var h := Replay(c, TwoSlots(c, i, m, j, n));
            && |h.counts| == c.countsLen && h.total == m + n
            && forall q :: 0 <= q < c.countsLen ==> h.counts[q] == if q == i then m else if q == j then n else 0
  {
    var a, b := Rec(ValueAtIndex(c, i), m, 0), Rec(ValueAtIndex(c, j), n, 0);
    IndexOfValueAtIndex(c, i);
    IndexOfValueAtIndex(c, j);
    hide Shaped, ValueAtIndex, CountsIndexFor, Replay;
    assert [a, b] == [a] + [b];
    ReplayOne(c, a);
    ReplaySnoc(c, [a], b);
  }

  lemma {:induction false} TwoSlotsPrefix(counts: seq<int>, i: nat, m: int, j: nat, n: int, q: nat)
    requires i < j < |counts| && q <= |counts|
    requires forall p :: 0 <= p < |counts| ==> counts[p] == if p == i then m else if p == j then n else 0
    ensures PrefixSum(counts, q) == (if i < q then m else 0) + if j < q then n else 0
    decreases q
  {
    if q > 0 { TwoSlotsPrefix(counts, i, m, j, n, q - 1); }
  }

  /** Out of order: two values in different slots, the larger percentile asked for
      first, and the second entry answers for the first. */
  lemma OutOfOrderDiffers(c: Config)
    requires Shaped(c)
    ensures var h, ps := Replay(c, TwoSlots(c, 0, 1, 1, 1)), [100.0, 50.0];
            && BatchValue(h, ps, 1) == HighestEquivalent(c, ValueAtIndex(c, 1))
            && ValueAtPercentile(h, ps[1]) == HighestEquivalent(c, ValueAtIndex(c, 0))
            && BatchValue(h, ps, 1) != ValueAtPercentile(h, ps[1])
  {
    var ps := [100.0, 50.0];
    assert CountAtPercentile(2, ps[0]) == 2 && CountAtPercentile(2, ps[1]) == 1;
    assert MaxCount(2, ps, 0) == 2 && MaxCount(2, ps, 1) == 2;
    hide Shaped, Replay, MaxCount, CountAtPercentile, FirstReaching, HighestEquivalent, ValueAtIndex, TwoSlots,
         LowestEquivalent, NaturalCounts;
    SecondSlot(c);
    TwoSlotsReach(c, 0, 1, 1, 1, 1);
    TwoSlotsReach(c, 0, 1, 1, 1, 2);
    SlotsDiffer(c, 0, 1);
  }

  /** On one histogram: a non-zero request agrees exactly when the value of the
      largest rank asked for so far is equivalent to the value of its own. */
  lemma AgreesIffEquivalent(c: Config, log: seq<Rec>, sorted: seq<int>, ps: seq<real>, i: nat)
    requires Shaped(c) && NaturalCounts(log) && i < |ps| && ps[i] != 0.0
    requires Sorted(sorted) && multiset(sorted) == multiset(Values(c, log)) && sorted != []
    ensures var k, j := MaxCount(|sorted|, ps, i), CountAtPercentile(|sorted|, ps[i]);
            && 1 <= j <= k <= |sorted| && sorted[k - 1] >= 0 && sorted[j - 1] >= 0
            && (BatchValue(Replay(c, log), ps, i) == ValueAtPercentile(Replay(c, log), ps[i])
                <==> LowestEquivalent(c, sorted[k - 1]) == LowestEquivalent(c, sorted[j - 1]))
  {
    hide Shaped, Replay, MaxCount, CountAtPercentile, Values, NaturalCounts, Sorted, BatchValue, ValueAtPercentile,
         HighestEquivalent, LowestEquivalent;
    BatchAtCount(c, log, sorted, ps, i);
    PercentileAtCount(c, log, sorted, ps[i]);
    TopsDiffer(c, sorted[MaxCount(|sorted|, ps, i) - 1], sorted[CountAtPercentile(|sorted|, ps[i]) - 1]);
  }

  lemma TopsDiffer(c: Config, v: nat, w: nat)
    requires Shaped(c)
    ensures HighestEquivalent(c, v) == HighestEquivalent(c, w) <==> LowestEquivalent(c, v) == LowestEquivalent(c, w)
  {
    hide Shaped, CountsIndexFor, HighestEquivalent, LowestEquivalent, ValueAtIndex;
    SlotBounds(c, v);
    SlotBounds(c, w);
    SlotsDiffer(c, CountsIndexFor(c, v), CountsIndexFor(c, w));
    EquivalentIffSameSlot(c, v, w);
  }

  // ----- percentile 0, which the batch answers with the top of a slot -----

  lemma RankOfZero(n: int)
    ensures CountAtPercentile(n, 0.0) == 1
  {
    assert 0.0 / 100.0 * (n as real) + 0.5 == 0.5;
  }

  /** On one histogram: percentile 0 agrees exactly when the smallest value has a
      slot to itself and the largest rank asked for so far finds the same value. */
  lemma ZeroAgreesIff(c: Config, log: seq<Rec>, sorted: seq<int>, ps: seq<real>, i: nat)
    requires Shaped(c) && NaturalCounts(log) && i < |ps| && ps[i] == 0.0
    requires Sorted(sorted) && multiset(sorted) == multiset(Values(c, log)) && sorted != []
    ensures var k := MaxCount(|sorted|, ps, i);
            && 1 <= k <= |sorted| && sorted[0] >= 0
            && (BatchValue(Replay(c, log), ps, i) == ValueAtPercentile(Replay(c, log), ps[i])
                <==> sorted[k - 1] == sorted[0] && SizeOfEquivalentValueRange(c, sorted[0]) == 1)
  {
    hide Shaped, Replay, MaxCount, CountAtPercentile, Values, NaturalCounts, BatchValue, ValueAtPercentile,
         LowestEquivalent, SizeOfEquivalentValueRange;
    RankOfZero(|sorted|);
    BatchAtCount(c, log, sorted, ps, i);
    PercentileAtCount(c, log, sorted, ps[i]);
    var k := MaxCount(|sorted|, ps, i);
    assert sorted[0] <= sorted[k - 1];
    InOwnRange(c, sorted[0]);
    InOwnRange(c, sorted[k - 1]);
  }

  /** On every histogram of a given total: percentile 0 agrees exactly when no
      earlier request asks for a larger rank and every slot is one value wide. */
  lemma ZeroAgreesEverywhereIff(c: Config, n: int, ps: seq<real>, i: nat)
    requires Shaped(c) && n >= 1 && i < |ps| && ps[i] == 0.0
    ensures AgreesOnTotal(c, n, ps, i) <==> MaxCount(n, ps, i) == 1 && c.unitMagnitude == 0 && c.bucketCount == 1
  {
    assert c.bucketCount >= 1;
    hide Shaped, Replay, MaxCount, CountAtPercentile, BatchValue, ValueAtPercentile, NaturalCounts;
    RankOfZero(n);
    MaxCountBound(n, ps, i);
    if MaxCount(n, ps, i) > 1 {
      ZeroAfterLarger(c, n, ps, i);
    } else if c.unitMagnitude > 0 || c.bucketCount > 1 {
      ZeroInWideSlot(c, n, ps, i);
    } else {
      forall log: seq<Rec> | NaturalCounts(log) && Replay(c, log).total == n
        ensures BatchValue(Replay(c, log), ps, i) == ValueAtPercentile(Replay(c, log), ps[i])
      {
        ZeroInNarrowSlot(c, log, ps, i);
      }
    }
  }

  lemma ZeroAfterLarger(c: Config, n: int, ps: seq<real>, i: nat)
    requires Shaped(c) && i < |ps| && ps[i] == 0.0 && 1 < MaxCount(n, ps, i) <= n
    ensures !AgreesOnTotal(c, n, ps, i)
  {
    hide Shaped, Replay, MaxCount, CountAtPercentile, FirstReaching, ValueAtIndex, TwoSlots, NaturalCounts,
         NextNonEquivalent, LowestEquivalent;
    RankOfZero(n);
    SecondSlot(c);
    TwoSlotsReach(c, 0, 1, 1, n - 1, 1);
    TwoSlotsReach(c, 0, 1, 1, n - 1, MaxCount(n, ps, i));
    SlotsMeet(c, 0);
    SlotsMeet(c, 1);
    InOwnRange(c, ValueAtIndex(c, 1));
    ValueAtIndexStrict(c, 0, 1);
    assert BatchValue(Replay(c, TwoSlots(c, 0, 1, 1, n - 1)), ps, i) >= ValueAtIndex(c, 1);
  }

  /** n values of slot s. */
  function OneSlot(c: Config, s: nat, n: int): seq<Rec>
    requires Shaped(c)
  {
    [Rec(ValueAtIndex(c, s), n, 0)]
  }

  lemma OneSlotReach(c: Config, s: nat, n: int, k: int)
    requires Shaped(c) && s < c.countsLen && 1 <= k <= n
    ensures var log := OneSlot(c, s, n);
            && NaturalCounts(log) && Replay(c, log).total == n && FirstReaching(Replay(c, log).counts, k, 0) == s
  {
    hide Shaped, Replay, ValueAtIndex, PrefixSum, FirstReaching;
    assert NaturalCounts(OneSlot(c, s, n));
    OneSlotCounts(c, s, n);
    hide OneSlot, NaturalCounts;
    var counts := Replay(c, OneSlot(c, s, n)).counts;
    forall q | 0 <= q <= s ensures PrefixSum(counts, q) < k { PrefixSumZero(counts, q); }
    PrefixSumZero(Empty(c).counts, s + 1);
    PrefixSumUpdate(Empty(c).counts, s, n, s + 1);
    FirstReachingIs(counts, k, s);
  }

  lemma OneSlotCounts(c: Config, s: nat, n: int)
    requires Shaped(c) && s < c.countsLen
    ensures var h := Replay(c, OneSlot(c, s, n));
            h.total == n && h.counts == Empty(c).counts[s := Empty(c).counts[s] + n]
  {
    hide Shaped, ValueAtIndex, CountsIndexFor, Replay;
    IndexOfValueAtIndex(c, s);
    ReplayOne(c, Rec(ValueAtIndex(c, s), n, 0));
  }

  lemma ReplayOne(c: Config, a: Rec)
    requires Shaped(c)
    ensures Replay(c, [a]) == Record(Empty(c), a)
  {
    hide Record, Empty, Shaped;
    assert [a] == [] + [a];
    ReplaySnoc(c, [], a);
  }

  /** Where a unit is more than 1 every slot is wide; where there is a second
      bucket its slots are. */
  lemma LastSlotWide(c: Config)
    requires Shaped(c) && (c.unitMagnitude > 0 || c.bucketCount > 1)
    ensures c.countsLen > 0 && SizeOfEquivalentValueRange(c, ValueAtIndex(c, c.countsLen - 1)) > 1
  {
    hide *;
    Counters.CountsNonEmpty(c);
    var v := ValueAtIndex(c, c.countsLen - 1);
    SlotsMeet(c, c.countsLen - 1);
    RecordableRange(c, v);
    LastBucketWide(c, v);
  }

  lemma LastBucketWide(c: Config, v: nat)
    requires Shaped(c) && (c.unitMagnitude > 0 || c.bucketCount > 1)
    requires LowestEquivalent(c, v) == v
    requires NextNonEquivalent(c, v) == Pow2(c.unitMagnitude + c.halfMagnitude + c.bucketCount)
    ensures SizeOfEquivalentValueRange(c, v) > 1
  {
    hide Shaped, Shl, LowestEquivalent, SizeOfEquivalentValueRange, GetBucketIndex;
    var u, m := c.unitMagnitude, c.halfMagnitude;
    InOwnRange(c, v);
    BucketIndexBounds(c, v);
    var b := GetBucketIndex(c, v);
    Pow2Zero();
    if u + b > 0 {
      Pow2Mono(0, u + b);
    } else {
      Pow2Mono(m + 1, m + c.bucketCount);
      Pow2Mono(0, m + 1);
    }
  }

  lemma ZeroInWideSlot(c: Config, n: int, ps: seq<real>, i: nat)
    requires Shaped(c) && n >= 1 && i < |ps| && ps[i] == 0.0 && MaxCount(n, ps, i) == 1
    requires c.unitMagnitude > 0 || c.bucketCount > 1
    ensures !AgreesOnTotal(c, n, ps, i)
  {
    hide Shaped, Replay, MaxCount, CountAtPercentile, FirstReaching, ValueAtIndex, OneSlot, NaturalCounts,
         SizeOfEquivalentValueRange, LowestEquivalent, HighestEquivalent;
    LastSlotWide(c);
    RankOfZero(n);
    OneSlotReach(c, c.countsLen - 1, n, 1);
    WideSlotDiffers(c, ValueAtIndex(c, c.countsLen - 1));
    var h := Replay(c, OneSlot(c, c.countsLen - 1, n));
    assert BatchValue(h, ps, i) != ValueAtPercentile(h, ps[i]);
  }

  lemma WideSlotDiffers(c: Config, v: nat)
    requires Shaped(c) && SizeOfEquivalentValueRange(c, v) > 1
    ensures HighestEquivalent(c, v) != LowestEquivalent(c, v)
  {
    hide Shaped, SizeOfEquivalentValueRange, LowestEquivalent;
  }

  lemma ZeroInNarrowSlot(c: Config, log: seq<Rec>, ps: seq<real>, i: nat)
    requires Shaped(c) && i < |ps| && ps[i] == 0.0 && c.unitMagnitude == 0 && c.bucketCount == 1
    requires Replay(c, log).total >= 1 && MaxCount(Replay(c, log).total, ps, i) == 1
    ensures BatchValue(Replay(c, log), ps, i) == ValueAtPercentile(Replay(c, log), ps[i])
  {
    hide Shaped, Replay, MaxCount, CountAtPercentile, FirstReaching, ValueAtIndex, CountsIndexFor,
         SizeOfEquivalentValueRange, LowestEquivalent, Shl, GetBucketIndex;
    var h := Replay(c, log);
    RankOfZero(h.total);
    Reaches(c, log, 1);
    var v := ValueAtIndex(c, FirstReaching(h.counts, 1, 0));
    IndexOfValueAtIndex(c, FirstReaching(h.counts, 1, 0));
    RecordableRange(c, v);
    BucketIndexUnique(c, v, 0);
    InOwnRange(c, v);
    Pow2Zero();
  }

  /** The single record 0, asked for percentile 0: the batch answers with the top of
      slot 0, the separate query with 0. */
  lemma ZeroPercentileDiffers(c: Config)
    requires Shaped(c) && c.unitMagnitude > 0
    ensures var h := Replay(c, [Rec(0, 1, 0)]);
            && BatchValue(h, [0.0], 0) == Pow2(c.unitMagnitude) - 1 > 0
            && ValueAtPercentile(h, 0.0) == 0
  {
    assert [0.0][0] == 0.0 && MaxCount(1, [0.0], 0) == CountAtPercentile(1, 0.0);
    FirstSlotIsZero(c);
    hide Shaped, Replay, MaxCount, CountAtPercentile, FirstReaching, ValueAtIndex, HighestEquivalent,
         LowestEquivalent, Pow2;
    RankOfZero(1);
    Counters.CountsNonEmpty(c);
    OneSlotReach(c, 0, 1, 1);
    SlotsMeet(c, 0);
    Counters.HighestOfZero(c);
  }

  // ----- nothing recorded -----

  lemma EmptyCount(p: real)
    ensures CountAtPercentile(0, p) == 1
  {
    assert Target(if p < 100.0 then p else 100.0, 0) == 0.5;
  }

  lemma {:induction false} EmptyMaxCount(ps: seq<real>, i: nat)
    requires i < |ps|
    ensures MaxCount(0, ps, i) == 1
    decreases i
  {
    hide CountAtPercentile;
    EmptyCount(ps[i]);
    if i > 0 { EmptyMaxCount(ps, i - 1); }
  }

  /** On an empty histogram every entry of the batch keeps the count 1 it started
      from, where the separate query answers from slot 0: the two agree exactly
      for non-zero percentiles and a unit of 2. */
  lemma EmptyBatchDiffers(c: Config, ps: seq<real>, i: nat)
    requires Shaped(c) && i < |ps|
    ensures BatchValue(Empty(c), ps, i) == 1
    ensures ValueAtPercentile(Empty(c), ps[i]) == if ps[i] == 0.0 then 0 else Pow2(c.unitMagnitude) - 1
    ensures BatchValue(Empty(c), ps, i) == ValueAtPercentile(Empty(c), ps[i])
            <==> ps[i] != 0.0 && c.unitMagnitude == 1
  {
    hide Shaped, CountAtPercentile, HighestEquivalent, LowestEquivalent, ValueAtPercentile, ValueAtIndex, Shl, MaxCount;
    EmptyPercentile(c, ps[i]);
    Counters.HighestOfZero(c);
    FirstSlotIsZero(c);
    SlotsMeet(c, 0);
    EmptyCount(ps[i]);
    EmptyMaxCount(ps, i);
    var counts := Empty(c).counts;
    forall n | 0 <= n <= |counts| ensures PrefixSum(counts, n) < 1 { PrefixSumZero(counts, n); }
    assert FirstReaching(counts, 1, 0) == -1;
    OneUnit(c.unitMagnitude);
  }

  lemma OneUnit(u: nat)
    ensures Pow2(u) == 2 <==> u == 1
  {
    if u > 1 { Pow2Mono(1, u); }
    assert Pow2(0) == 1 && Pow2(1) == 2;
  }
}
