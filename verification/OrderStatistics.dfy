/** Percentiles of a histogram against the sorted list of recorded values. */
module OrderStatistics {
  import opened Buckets
  import opened HistogramModel

  // ----- the recorded values behind a log -----

  function Copies(v: int, n: int): (s: seq<int>)
    ensures |s| == if n > 0 then n else 0
  {
    seq(if n > 0 then n else 0, _ => v)
  }

  /** Every accepted value of the log, as often as it was recorded. */
  function Values(c: Config, log: seq<Rec>): (vs: seq<int>)
    requires Shaped(c)
    ensures AllNatural(vs)
  {
    if log == [] then []
    else
      var r := log[|log| - 1];
      Values(c, log[..|log| - 1]) + if Accepts(c, r.value) then Copies(r.value, r.count) else []
  }

  /** Records of no value are allowed, as hdr_record_values allows them. */
  predicate NaturalCounts(log: seq<Rec>) {
    forall k :: 0 <= k < |log| ==> log[k].count >= 0
  }

  predicate AllNatural(vs: seq<int>) {
    forall k :: 0 <= k < |vs| ==> vs[k] >= 0
  }

  predicate Sorted(vs: seq<int>) {
    forall j, k :: 0 <= j < k < |vs| ==> vs[j] <= vs[k]
  }

  /** How many of the values lie in slots 0..i. */
  function RankUpTo(c: Config, vs: seq<int>, i: int): (n: nat)
    requires Shaped(c) && AllNatural(vs)
    ensures n <= |vs|
  {
    if vs == [] then 0
    else
      RankUpTo(c, vs[..|vs| - 1], i) + if CountsIndexFor(c, vs[|vs| - 1]) <= i then 1 else 0
  }

  lemma {:induction false} RankConcat(c: Config, a: seq<int>, b: seq<int>, i: int)
    requires Shaped(c) && AllNatural(a) && AllNatural(b)
    ensures AllNatural(a + b) && RankUpTo(c, a + b, i) == RankUpTo(c, a, i) + RankUpTo(c, b, i)
    decreases |b|
  {
    hide CountsIndexFor, Shaped;
    if b == [] {
      assert a + b == a;
    } else {
      RankConcat(c, a, b[..|b| - 1], i);
      assert (a + b)[..|a + b| - 1] == a + b[..|b| - 1];
    }
  }

  lemma {:induction false} RankCopies(c: Config, v: nat, n: int, i: int)
    requires Shaped(c) && n >= 0
    ensures RankUpTo(c, Copies(v, n), i) == if CountsIndexFor(c, v) <= i then n else 0
    decreases n
  {
    hide CountsIndexFor, Shaped;
    if n > 0 {
      RankCopies(c, v, n - 1, i);
      assert Copies(v, n)[..n - 1] == Copies(v, n - 1);
    }
  }

  lemma {:induction false} RankPermutation(c: Config, a: seq<int>, b: seq<int>, i: int)
    requires Shaped(c) && AllNatural(a) && AllNatural(b) && multiset(a) == multiset(b)
    ensures RankUpTo(c, a, i) == RankUpTo(c, b, i)
    decreases |a|
  {
    hide CountsIndexFor, Shaped;
    if a == [] {
      assert |multiset(b)| == 0;
    } else {
      var p, q := WithoutLast(a, b);
      var x := [a[|a| - 1]];
      assert b == p + x + q;
      assert AllNatural(p) && AllNatural(q) by {
        assert forall k :: 0 <= k < |p| ==> p[k] == b[k];
        assert forall k :: 0 <= k < |q| ==> q[k] == b[|p| + 1 + k];
      }
      RankConcat(c, p, x, i);
      RankConcat(c, p + x, q, i);
      RankConcat(c, p, q, i);
      RankPermutation(c, a[..|a| - 1], p + q, i);
    }
  }

  /** The counts of the first slots add up to how many values lie in them. */
  lemma {:induction false} PrefixIsRank(c: Config, log: seq<Rec>, i: nat)
    requires Shaped(c) && NaturalCounts(log) && i < c.countsLen
    ensures PrefixSum(Replay(c, log).counts, i + 1) == RankUpTo(c, Values(c, log), i)
    decreases |log|
  {
    hide CountsIndexFor, Shaped, PrefixSum, RankUpTo;
    if log == [] {
      PrefixSumZero(Empty(c).counts, i + 1);
      assert RankUpTo(c, [], i) == 0;
    } else {
      var log0, r := log[..|log| - 1], log[|log| - 1];
      PrefixIsRank(c, log0, i);
      var h := Replay(c, log0);
      if Accepts(c, r.value) {
        PrefixSumUpdate(h.counts, CountsIndexFor(c, r.value), r.count, i + 1);
        RankCopies(c, r.value, r.count, i);
        RankConcat(c, Values(c, log0), Copies(r.value, r.count), i);
      } else {
        assert Values(c, log) == Values(c, log0);
      }
    }
  }

  lemma {:induction false} TotalIsLength(c: Config, log: seq<Rec>)
    requires Shaped(c) && NaturalCounts(log)
    ensures Replay(c, log).total == |Values(c, log)|
    decreases |log|
  {
    hide CountsIndexFor, Shaped;
    if log != [] {
      TotalIsLength(c, log[..|log| - 1]);
    }
  }

  /** In a sorted list the values of the first slots come first. */
  lemma {:induction false} SortedRank(c: Config, vs: seq<int>, i: int, k: nat)
    requires Shaped(c) && AllNatural(vs) && Sorted(vs) && k < |vs|
    ensures k < RankUpTo(c, vs, i) <==> CountsIndexFor(c, vs[k]) <= i
    decreases |vs|
  {
    hide CountsIndexFor, Shaped;
    var last := |vs| - 1;
    CountsIndexMonotone(c, vs[k], vs[last]);
    if k < last {
      SortedRank(c, vs[..last], i, k);
    } else if CountsIndexFor(c, vs[last]) <= i {
      AllRanked(c, vs, i);
    }
  }

  lemma {:induction false} AllRanked(c: Config, vs: seq<int>, i: int)
    requires Shaped(c) && AllNatural(vs) && Sorted(vs)
    requires vs != [] && CountsIndexFor(c, vs[|vs| - 1]) <= i
    ensures RankUpTo(c, vs, i) == |vs|
    decreases |vs|
  {
    hide CountsIndexFor, Shaped;
    if |vs| > 1 {
      CountsIndexMonotone(c, vs[|vs| - 2], vs[|vs| - 1]);
      AllRanked(c, vs[..|vs| - 1], i);
    }
  }

  // ----- the percentile query, hdr_histogram.c:669-698 -----

  /** Conversion of a real to int64_t: truncation toward zero. */
  function Truncate(x: real): int {
    if x >= 0.0 then x.Floor else -((-x).Floor)
  }

  function Target(requested: real, total: int): real {
    (requested / 100.0) * total as real + 0.5
  }

  /** The count looked for: at least 1. */
  function CountAtPercentile(total: int, percentile: real): int {
    var requested := if percentile < 100.0 then percentile else 100.0;
    var k := Truncate(Target(requested, total));
    if 0 < k then k else 1
  }

  /** First slot at which the running count reaches k, from slot i on; -1 if none. */
  function FirstReaching(counts: seq<int>, k: int, i: nat): (idx: int)
    requires i <= |counts|
    ensures -1 <= idx < |counts|
    ensures idx != -1 ==> i <= idx && PrefixSum(counts, idx + 1) >= k
    ensures forall n :: i < n <= (if idx == -1 then |counts| else idx) ==> PrefixSum(counts, n) < k
    decreases |counts| - i
  {
    if i == |counts| then -1
    else if PrefixSum(counts, i + 1) >= k then i
    else FirstReaching(counts, k, i + 1)
  }

  function ValueAtCount(h: Hist, k: int): nat
    requires Valid(h)
  {
    var idx := FirstReaching(h.counts, k, 0);
    if idx == -1 then 0 else ValueAtIndex(h.cfg, idx)
  }

  function ValueAtPercentile(h: Hist, percentile: real): int
    requires Valid(h)
  {
    var v := ValueAtCount(h, CountAtPercentile(h.total, percentile));
    if percentile == 0.0 then LowestEquivalent(h.cfg, v) else HighestEquivalent(h.cfg, v)
  }

  lemma TargetMonotone(p: real, q: real, total: nat)
    requires p <= q
    ensures Target(p, total) <= Target(q, total)
  {
    var a, b, t := p / 100.0, q / 100.0, total as real;
    assert (b - a) * t >= 0.0;
  }

  lemma TargetBelow(p: real, total: nat)
    requires p <= 100.0
    ensures Target(p, total) <= total as real + 0.5
  {
    var a, t := p / 100.0, total as real;
    assert (1.0 - a) * t >= 0.0;
  }

  /** The count looked for is between 1 and the total, and grows with the percentile. */
  lemma CountBounds(total: int, p: real, q: real)
    requires total >= 1 && p <= q
    ensures 1 <= CountAtPercentile(total, p) <= CountAtPercentile(total, q) <= total
  {
    assert Truncate(total as real + 0.5) == total;
    hide Truncate, Target;
    var a, b := if p < 100.0 then p else 100.0, if q < 100.0 then q else 100.0;
    TargetMonotone(a, b, total);
    TargetBelow(b, total);
    TruncateMonotone(Target(a, total), Target(b, total));
    TruncateMonotone(Target(b, total), total as real + 0.5);
  }

  /** k is the nearest rank of percentile p among total values: the integer nearest
      to p / 100 * total, halves going up, and at least 1. */
  predicate IsRank(k: int, total: int, p: real) {
    var exact := (if p < 100.0 then p else 100.0) / 100.0 * total as real;
    1 <= k && (k > 1 ==> k as real - 0.5 <= exact) && exact < k as real + 0.5
  }

  /** There is one rank, and it is the count looked for. */
  lemma RankIs(total: int, p: real, k: int)
    ensures IsRank(k, total, p) <==> k == CountAtPercentile(total, p)
  {
    var exact := (if p < 100.0 then p else 100.0) / 100.0 * total as real;
    var t := Truncate(exact + 0.5);
    assert t >= 1 ==> t as real <= exact + 0.5 < t as real + 1.0;
    assert t < 1 ==> exact + 0.5 < 1.0;
    assert CountAtPercentile(total, p) == if t >= 1 then t else 1;
    hide Truncate, Target, CountAtPercentile;
    if k > 1 && t >= 1 && k != t {
      assert k < t ==> k as real + 1.0 <= t as real;
      assert k > t ==> t as real + 1.0 <= k as real;
    }
  }

  lemma TruncateMonotone(x: real, y: real)
    requires x <= y
    ensures Truncate(x) <= Truncate(y)
  {
  }

  /** The slot where the running count first reaches k is the slot of the k-th
      smallest recorded value. */
  lemma SlotOfRank(c: Config, log: seq<Rec>, sorted: seq<int>, k: nat)
    requires Shaped(c) && NaturalCounts(log)
    requires Sorted(sorted) && multiset(sorted) == multiset(Values(c, log))
    requires 1 <= k <= |sorted|
    ensures sorted[k - 1] >= 0
    ensures FirstReaching(Replay(c, log).counts, k, 0) == CountsIndexFor(c, sorted[k - 1])
  {
    SortedNatural(Values(c, log), sorted);
    RankInRange(c, log, sorted, k);
    hide CountsIndexFor, Shaped, Values, PrefixSum, Replay, FirstReaching, NaturalCounts, Sorted, AllNatural;
    var counts, i := Replay(c, log).counts, CountsIndexFor(c, sorted[k - 1]);
    ReachesAtSlot(c, log, sorted, k, i);
    forall n | 0 <= n <= i ensures PrefixSum(counts, n) < k {
      if n == 0 {
        PrefixSumZero(counts, 0);
      } else {
        ReachesAtSlot(c, log, sorted, k, n - 1);
      }
    }
    FirstReachingIs(counts, k, i);
  }

  /** The running count reaches k by slot n exactly when the k-th smallest value
      lies in a slot up to n. */
  lemma ReachesAtSlot(c: Config, log: seq<Rec>, sorted: seq<int>, k: nat, n: nat)
    requires Shaped(c) && NaturalCounts(log) && n < c.countsLen
    requires Sorted(sorted) && multiset(sorted) == multiset(Values(c, log))
    requires 1 <= k <= |sorted|
    ensures sorted[k - 1] >= 0
    ensures PrefixSum(Replay(c, log).counts, n + 1) >= k <==> CountsIndexFor(c, sorted[k - 1]) <= n
  {
    hide *;
    PrefixIsSortedRank(c, log, sorted, n);
    ElementNatural(sorted, k - 1);
    SortedRank(c, sorted, n, k - 1);
  }

  /** The running count up to slot n is the rank of slot n in the sorted values. */
  lemma PrefixIsSortedRank(c: Config, log: seq<Rec>, sorted: seq<int>, n: nat)
    requires Shaped(c) && NaturalCounts(log) && n < c.countsLen
    requires multiset(sorted) == multiset(Values(c, log))
    ensures AllNatural(sorted)
    ensures PrefixSum(Replay(c, log).counts, n + 1) == RankUpTo(c, sorted, n)
  {
    hide Shaped, Values, PrefixSum, RankUpTo, Replay, NaturalCounts, AllNatural;
    PrefixIsRank(c, log, n);
    SortedNatural(Values(c, log), sorted);
    RankPermutation(c, sorted, Values(c, log), n);
  }

  lemma ElementNatural(vs: seq<int>, k: nat)
    requires AllNatural(vs) && k < |vs|
    ensures vs[k] >= 0
  {
  }

  lemma FirstReachingIs(counts: seq<int>, k: int, i: nat)
    requires i < |counts| && PrefixSum(counts, i + 1) >= k
    requires forall n :: 0 <= n <= i ==> PrefixSum(counts, n) < k
    ensures FirstReaching(counts, k, 0) == i
  {
    hide PrefixSum;
    var idx := FirstReaching(counts, k, 0);
    assert idx != -1 && idx + 1 > i;
  }

  lemma SortedNatural(vs: seq<int>, sorted: seq<int>)
    requires AllNatural(vs) && multiset(sorted) == multiset(vs)
    ensures AllNatural(sorted) && |sorted| == |vs|
  {
    forall k | 0 <= k < |sorted| ensures sorted[k] >= 0 {
      assert sorted[k] in multiset(vs);
    }
    assert |multiset(sorted)| == |multiset(vs)|;
  }

  /** Recorded values are accepted values. */
  lemma RankInRange(c: Config, log: seq<Rec>, sorted: seq<int>, k: nat)
    requires Shaped(c) && multiset(sorted) == multiset(Values(c, log)) && 1 <= k <= |sorted|
    ensures Accepts(c, sorted[k - 1])
  {
    hide Values, Accepts, Shaped;
    assert sorted[k - 1] in multiset(Values(c, log));
    ValuesAccepted(c, log);
  }

  lemma {:induction false} ValuesAccepted(c: Config, log: seq<Rec>)
    requires Shaped(c)
    ensures forall j :: 0 <= j < |Values(c, log)| ==> Accepts(c, Values(c, log)[j])
    decreases |log|
  {
    hide CountsIndexFor, Shaped;
    if log != [] {
      ValuesAccepted(c, log[..|log| - 1]);
    }
  }

  /** A percentile is an order statistic: for a non-empty histogram built by any
      run of records, the query answers with the highest value equivalent to the
      k-th smallest recorded value (the lowest for percentile 0), k the nearest
      rank of the percentile. */
  lemma PercentileIsOrderStatistic(c: Config, log: seq<Rec>, sorted: seq<int>, p: real, k: int)
    requires Shaped(c) && NaturalCounts(log) && IsRank(k, |sorted|, p)
    requires Sorted(sorted) && multiset(sorted) == multiset(Values(c, log)) && sorted != []
    ensures 1 <= k <= |sorted| && sorted[k - 1] >= 0
    ensures ValueAtPercentile(Replay(c, log), p)
            == if p == 0.0 then LowestEquivalent(c, sorted[k - 1]) else HighestEquivalent(c, sorted[k - 1])
  {
    hide Shaped, NaturalCounts, Values, Replay, ValueAtPercentile, LowestEquivalent, HighestEquivalent,
         CountAtPercentile, IsRank, Sorted;
    RankIs(|sorted|, p, k);
    PercentileAtCount(c, log, sorted, p);
  }

  lemma PercentileAtCount(c: Config, log: seq<Rec>, sorted: seq<int>, p: real)
    requires Shaped(c) && NaturalCounts(log)
    requires Sorted(sorted) && multiset(sorted) == multiset(Values(c, log)) && sorted != []
    ensures 1 <= CountAtPercentile(|sorted|, p) <= |sorted|
    ensures var x := sorted[CountAtPercentile(|sorted|, p) - 1];
            && x >= 0
            && ValueAtPercentile(Replay(c, log), p)
               == if p == 0.0 then LowestEquivalent(c, x) else HighestEquivalent(c, x)
  {
    var h, k := Replay(c, log), CountAtPercentile(|sorted|, p);
    SortedNatural(Values(c, log), sorted);
    TotalIsLength(c, log);
    CountBounds(|sorted|, p, p);
    SlotOfRank(c, log, sorted, k);
    var x := sorted[k - 1];
    hide Shaped, Values, Replay, CountsIndexFor, FirstReaching, CountAtPercentile, LowestEquivalent, HighestEquivalent,
         ValueAtIndex, NextNonEquivalent;
    SlotBounds(c, x);
  }

  /** A slot's lowest value has the bounds of every value in the slot. */
  lemma SlotBounds(c: Config, x: nat)
    requires Shaped(c)
    ensures LowestEquivalent(c, ValueAtIndex(c, CountsIndexFor(c, x))) == LowestEquivalent(c, x)
    ensures HighestEquivalent(c, ValueAtIndex(c, CountsIndexFor(c, x))) == HighestEquivalent(c, x)
  {
    hide Shaped, CountsIndexFor, LowestEquivalent, HighestEquivalent, ValueAtIndex, NextNonEquivalent;
    var i := CountsIndexFor(c, x);
    IndexOfValueAtIndex(c, i);
    EquivalentIffSameSlot(c, ValueAtIndex(c, i), x);
  }

  /** A higher percentile never has a lower value. */
  lemma PercentileMonotone(c: Config, log: seq<Rec>, sorted: seq<int>, p: real, q: real)
    requires Shaped(c) && NaturalCounts(log)
    requires Sorted(sorted) && multiset(sorted) == multiset(Values(c, log)) && sorted != []
    requires 0.0 < p <= q
    ensures ValueAtPercentile(Replay(c, log), p) <= ValueAtPercentile(Replay(c, log), q)
  {
    hide Shaped, NaturalCounts, Values, Replay, CountAtPercentile, ValueAtPercentile, HighestEquivalent;
    PercentileAtCount(c, log, sorted, p);
    PercentileAtCount(c, log, sorted, q);
    CountBounds(|sorted|, p, q);
    var j, k := CountAtPercentile(|sorted|, p) - 1, CountAtPercentile(|sorted|, q) - 1;
    assert sorted[j] <= sorted[k];
    HighestMonotone(c, sorted[j], sorted[k]);
  }

  lemma HighestMonotone(c: Config, v: nat, w: nat)
    requires Shaped(c) && v <= w
    ensures HighestEquivalent(c, v) <= HighestEquivalent(c, w)
  {
    hide Shaped, CountsIndexFor, LowestEquivalent, ValueAtIndex, NextNonEquivalent;
    var i, j := CountsIndexFor(c, v), CountsIndexFor(c, w);
    CountsIndexMonotone(c, v, w);
    if i < j {
      SlotBounds(c, v);
      SlotBounds(c, w);
      ValueAtIndexStrict(c, i, j);
      ValueAtIndexOfValue(c, w);
      InOwnRange(c, w);
    } else {
      EquivalentIffSameSlot(c, v, w);
    }
  }

  /** With nothing recorded every query answers from slot 0. */
  lemma EmptyPercentile(c: Config, p: real)
    requires Shaped(c)
    ensures ValueAtPercentile(Empty(c), p)
            == if p == 0.0 then LowestEquivalent(c, 0) else HighestEquivalent(c, 0)
  {
    hide Shaped, LowestEquivalent, HighestEquivalent, ValueAtIndex, CountAtPercentile;
    var k := CountAtPercentile(0, p);
    assert k >= 1 by { CountPositive(0, p); }
    forall n | 0 <= n <= c.countsLen ensures PrefixSum(Empty(c).counts, n) < k {
      PrefixSumZero(Empty(c).counts, n);
    }
    assert FirstReaching(Empty(c).counts, k, 0) == -1;
  }

  lemma CountPositive(total: int, p: real)
    ensures CountAtPercentile(total, p) >= 1
  {
  }
}
