/** The counters kept while recording against the ones hdr_reset_internal_counters
    recomputes from the slots alone. */
module Counters {
  import opened Bits
  import opened Buckets
  import opened HistogramModel
  import opened OrderStatistics

  /** Highest slot with a positive count, -1 if none. */
  function LastPositive(s: seq<int>): (i: int)
    ensures -1 <= i < |s|
    ensures i >= 0 ==> s[i] > 0
    ensures forall j :: i < j < |s| ==> s[j] <= 0
  {
    if s == [] then -1
    else if s[|s| - 1] > 0 then |s| - 1
    else LastPositive(s[..|s| - 1])
  }

  /** Lowest slot other than slot 0 with a positive count, -1 if none. */
  function FirstPositive(s: seq<int>): (i: int)
    ensures i == -1 || (0 < i < |s| && s[i] > 0)
    ensures forall j :: 0 < j < (if i == -1 then |s| else i) ==> s[j] <= 0
  {
    if s == [] then -1
    else
      var f := FirstPositive(s[..|s| - 1]);
      if f != -1 then f
      else if |s| - 1 != 0 && s[|s| - 1] > 0 then |s| - 1
      else -1
  }

  function PositiveSum(s: seq<int>): int {
    if s == [] then 0
    else PositiveSum(s[..|s| - 1]) + if s[|s| - 1] > 0 then s[|s| - 1] else 0
  }

  /** hdr_reset_internal_counters, hdr_histogram.c:274-316. */
  function Recompute(h: Hist): Hist
    requires Valid(h)
  {
    var last, first := LastPositive(h.counts), FirstPositive(h.counts);
    h.(maxValue := if last == -1 then 0 else HighestEquivalent(h.cfg, ValueAtIndex(h.cfg, last)),
       minValue := if first == -1 then INT64_MAX else ValueAtIndex(h.cfg, first),
       total := PositiveSum(h.counts))
  }

  /** hdr_max */
  function Max(h: Hist): int
    requires Valid(h) && h.maxValue >= 0
  {
    if h.maxValue == 0 then 0 else HighestEquivalent(h.cfg, h.maxValue)
  }

  /** hdr_min */
  function Min(h: Hist): int
    requires Valid(h) && h.minValue >= 0 && h.counts != []
  {
    if 0 < h.counts[0] then 0
    else if h.minValue == INT64_MAX then INT64_MAX
    else LowestEquivalent(h.cfg, h.minValue)
  }

  // ----- slots and recorded values -----

  predicate PositiveCounts(log: seq<Rec>) {
    forall k :: 0 <= k < |log| ==> log[k].count > 0
  }

  predicate SomeAccepted(c: Config, log: seq<Rec>)
    requires Shaped(c)
  {
    exists k :: 0 <= k < |log| && Accepts(c, log[k].value)
  }

  predicate AllAccepted(c: Config, log: seq<Rec>, x: int)
    requires Shaped(c)
  {
    forall k :: 0 <= k < |log| && Accepts(c, log[k].value) ==> log[k].value == x
  }

  lemma PositiveIsNatural(log: seq<Rec>)
    requires PositiveCounts(log)
    ensures NaturalCounts(log)
  {
  }

  /** Some accepted value of the log lies in slot i. */
  predicate InSlot(c: Config, log: seq<Rec>, i: nat)
    requires Shaped(c)
  {
    exists k :: 0 <= k < |log| && Accepts(c, log[k].value) && CountsIndexFor(c, log[k].value) == i
  }

  /** A slot's count is never negative, and 0 when no value of the slot was recorded. */
  lemma {:induction false} SlotNatural(c: Config, log: seq<Rec>, i: nat)
    requires Shaped(c) && NaturalCounts(log)
    ensures SlotSum(c, log, i) >= 0 && (!InSlot(c, log, i) ==> SlotSum(c, log, i) == 0)
    decreases |log|
  {
    hide CountsIndexFor, Shaped;
    if log != [] {
      var n := |log| - 1;
      SlotNatural(c, log[..n], i);
      if InSlot(c, log[..n], i) {
        var k :| 0 <= k < n && Accepts(c, log[..n][k].value) && CountsIndexFor(c, log[..n][k].value) == i;
        assert log[k] == log[..n][k];
      }
    }
  }

  /** A slot's count is positive exactly when a value of the slot was recorded. */
  lemma {:induction false} SlotPositive(c: Config, log: seq<Rec>, i: nat)
    requires Shaped(c) && PositiveCounts(log)
    ensures SlotSum(c, log, i) >= 0
    ensures SlotSum(c, log, i) > 0
            <==> exists k :: 0 <= k < |log| && Accepts(c, log[k].value) && CountsIndexFor(c, log[k].value) == i
    decreases |log|
  {
    hide CountsIndexFor, Shaped;
    if log != [] {
      var n := |log| - 1;
      SlotPositive(c, log[..n], i);
      if k :| 0 <= k < n && Accepts(c, log[..n][k].value) && CountsIndexFor(c, log[..n][k].value) == i {
        assert log[k] == log[..n][k];
      }
      if k :| 0 <= k < |log| && Accepts(c, log[k].value) && CountsIndexFor(c, log[k].value) == i {
        if k < n { assert log[..n][k] == log[k]; }
      }
    }
  }

  lemma LastPositiveIs(s: seq<int>, i: nat)
    requires i < |s| && s[i] > 0 && forall j :: i < j < |s| ==> s[j] <= 0
    ensures LastPositive(s) == i
  {
    var l := LastPositive(s);
    assert l >= i;
  }

  lemma FirstPositiveIs(s: seq<int>, i: nat)
    requires 0 < i < |s| && s[i] > 0 && forall j :: 0 < j < i ==> s[j] <= 0
    ensures FirstPositive(s) == i
  {
    var f := FirstPositive(s);
    assert f != -1 && f <= i;
  }

  lemma {:induction false} PositiveSumIsSum(s: seq<int>)
    requires forall j :: 0 <= j < |s| ==> s[j] >= 0
    ensures PositiveSum(s) == SumOf(s)
    decreases |s|
  {
    if s != [] {
      PositiveSumIsSum(s[..|s| - 1]);
      PrefixSumAgree(s, s[..|s| - 1], |s| - 1);
    }
  }

  /** The highest positive slot is the slot of the largest recorded value. */
  lemma LastIsMaxSlot(c: Config, log: seq<Rec>, h: Hist)
    requires Shaped(c) && PositiveCounts(log) && h == Replay(c, log) && SomeAccepted(c, log)
    ensures h.maxValue >= 0 && LastPositive(h.counts) == CountsIndexFor(c, h.maxValue)
  {
    hide CountsIndexFor, Shaped, Replay, PositiveCounts, SlotSum, LogTotal, IsMinOf;
    ReplayDescribes(c, log);
    var a := MaxAttained(c, log, h.maxValue);
    var i := CountsIndexFor(c, h.maxValue);
    SlotPositive(c, log, i);
    assert h.counts[i] > 0;
    forall j | i < j < |h.counts| ensures h.counts[j] <= 0 {
      SlotPositive(c, log, j);
      if k :| 0 <= k < |log| && Accepts(c, log[k].value) && CountsIndexFor(c, log[k].value) == j {
        CountsIndexMonotone(c, log[k].value, h.maxValue);
      }
    }
    LastPositiveIs(h.counts, i);
  }

  lemma MaxAttained(c: Config, log: seq<Rec>, m: int) returns (a: nat)
    requires Shaped(c) && IsMaxOf(c, log, m) && SomeAccepted(c, log)
    ensures a < |log| && Accepts(c, log[a].value) && log[a].value == m
  {
    hide Shaped, CountsIndexFor;
    if m == 0 {
      a :| 0 <= a < |log| && Accepts(c, log[a].value);
    } else {
      a :| 0 <= a < |log| && Accepts(c, log[a].value) && log[a].value == m;
    }
  }

  /** With slot 0 empty, the lowest positive slot is the slot of the smallest
      recorded value. */
  lemma FirstIsMinSlot(c: Config, log: seq<Rec>, h: Hist, a: nat)
    requires Shaped(c) && PositiveCounts(log) && h == Replay(c, log)
    requires a < |log| && Accepts(c, log[a].value)
    requires forall k :: 0 <= k < |log| && Accepts(c, log[k].value) ==> log[a].value <= log[k].value
    requires CountsIndexFor(c, log[a].value) > 0
    ensures h.counts[0] == 0
    ensures FirstPositive(h.counts) == CountsIndexFor(c, log[a].value)
  {
    hide CountsIndexFor, Shaped, Replay, PositiveCounts, SlotSum, LogTotal, IsMinOf, IsMaxOf;
    ReplayDescribes(c, log);
    var i := CountsIndexFor(c, log[a].value);
    SlotPositive(c, log, i);
    assert h.counts[i] > 0;
    forall j | 0 <= j < i ensures h.counts[j] == 0 {
      SlotPositive(c, log, j);
      if k :| 0 <= k < |log| && Accepts(c, log[k].value) && CountsIndexFor(c, log[k].value) == j {
        CountsIndexMonotone(c, log[a].value, log[k].value);
      }
    }
    FirstPositiveIs(h.counts, i);
  }

  // ----- agreement, and exactly when it fails -----

  /** The recomputed total is the kept one. */
  lemma TotalAgrees(c: Config, log: seq<Rec>)
    requires Shaped(c) && NaturalCounts(log)
    ensures Recompute(Replay(c, log)).total == Replay(c, log).total
  {
    hide CountsIndexFor, Shaped, Replay, NaturalCounts, SlotSum, LogTotal, IsMinOf, IsMaxOf, ValueAtIndex,
         HighestEquivalent;
    var h := Replay(c, log);
    ReplayDescribes(c, log);
    forall i | 0 <= i < |h.counts| ensures h.counts[i] >= 0 { SlotNatural(c, log, i); }
    PositiveSumIsSum(h.counts);
    ReplaySum(c, log);
  }

  lemma HighestOfHighest(c: Config, v: nat)
    requires Shaped(c)
    ensures v <= HighestEquivalent(c, v)
    ensures HighestEquivalent(c, HighestEquivalent(c, v)) == HighestEquivalent(c, v)
  {
    hide Shaped, CountsIndexFor, ValueAtIndex, LowestEquivalent, SizeOfEquivalentValueRange;
    InOwnRange(c, v);
    var i := CountsIndexFor(c, v);
    SlotsMeet(c, i);
    SlotBounds(c, v);
    ValueAtIndexOfValue(c, v);
    SlotTiling(c, HighestEquivalent(c, v), i);
    EquivalentIffSameSlot(c, v, HighestEquivalent(c, v));
  }

  lemma HighestOfZero(c: Config)
    requires Shaped(c)
    ensures HighestEquivalent(c, 0) == Pow2(c.unitMagnitude) - 1
    ensures HighestEquivalent(c, 0) == 0 <==> c.unitMagnitude == 0
  {
    hide Shaped, CountsIndexFor, ValueAtIndex, BitOr, BitLength, Shr;
    BucketIndexUnique(c, 0, 0);
    SubBucketBounds(c, 0);
    InOwnRange(c, 0);
    if c.unitMagnitude > 0 { Pow2Mono(0, c.unitMagnitude); }
    assert Shl(0, c.unitMagnitude) == 0 && Pow2(0) == 1;
  }

  /** hdr_max agrees unless the histogram holds only zeros and its unit is
      larger than 1. */
  lemma MaxAgreesIff(c: Config, log: seq<Rec>)
    requires Shaped(c) && PositiveCounts(log)
    ensures Replay(c, log).maxValue >= 0 && Recompute(Replay(c, log)).maxValue >= 0
    ensures Max(Recompute(Replay(c, log))) == Max(Replay(c, log))
            <==> !(SomeAccepted(c, log) && AllAccepted(c, log, 0) && c.unitMagnitude > 0)
  {
    var h := Replay(c, log);
    ReplayDescribes(c, log);
    if SomeAccepted(c, log) {
      LastIsMaxSlot(c, log, h);
      MaxZeroIff(c, log, h.maxValue);
      hide CountsIndexFor, Shaped, Replay, PositiveCounts, SlotSum, LogTotal, IsMinOf, IsMaxOf, ValueAtIndex,
           HighestEquivalent, FirstPositive, PositiveSum, SomeAccepted, AllAccepted, LastPositive;
      SlotBounds(c, h.maxValue);
      HighestOfHighest(c, h.maxValue);
      HighestOfZero(c);
    } else {
      NothingRecorded(c, log, h);
      hide CountsIndexFor, Shaped, Replay, PositiveCounts, ValueAtIndex, HighestEquivalent, FirstPositive, PositiveSum;
    }
  }

  lemma MaxZeroIff(c: Config, log: seq<Rec>, m: int)
    requires Shaped(c) && IsMaxOf(c, log, m) && SomeAccepted(c, log)
    ensures m == 0 <==> AllAccepted(c, log, 0)
  {
    var a := MaxAttained(c, log, m);
    hide Shaped, CountsIndexFor;
  }

  lemma NothingRecorded(c: Config, log: seq<Rec>, h: Hist)
    requires Shaped(c) && PositiveCounts(log) && Describes(h, log) && h.cfg == c && !SomeAccepted(c, log)
    ensures LastPositive(h.counts) == -1 && FirstPositive(h.counts) == -1
    ensures h.maxValue == 0 && h.minValue == INT64_MAX
    ensures h.counts != [] ==> h.counts[0] == 0
  {
    hide CountsIndexFor, Shaped, PositiveCounts, SlotSum, LogTotal, Accepts;
    forall i | 0 <= i < |h.counts| ensures h.counts[i] == 0 {
      SlotPositive(c, log, i);
    }
  }

  lemma CountsNonEmpty(c: Config)
    requires Shaped(c)
    ensures c.countsLen > 0
  {
    hide Shl;
    ShlOrder(1, c.bucketCount + 1, c.halfMagnitude);
  }

  /** INT64_MAX is never the lowest value of its slot. */
  lemma MaxIsNotLowest(c: Config)
    requires Shaped(c) && c.unitMagnitude + c.halfMagnitude <= 61
    ensures LowestEquivalent(c, INT64_MAX) != INT64_MAX
    ensures CountsIndexFor(c, INT64_MAX) > 0
  {
    hide Shaped, CountsIndexFor, ValueAtIndex, BitOr, BitLength, Shr, SizeOfEquivalentValueRange, GetBucketIndex;
    Pow2Values();
    BucketIndexBounds(c, INT64_MAX);
    var k := c.unitMagnitude + GetBucketIndex(c, INT64_MAX);
    if k == 0 { Pow2Mono(c.halfMagnitude + 1, 62); }
    InOwnRange(c, INT64_MAX);
    assert LowestEquivalent(c, INT64_MAX) % 2 == 0;
    SlotZeroIsSmall(c);
  }

  lemma SlotZeroIsSmall(c: Config)
    requires Shaped(c) && c.unitMagnitude <= 61
    ensures CountsIndexFor(c, INT64_MAX) > 0
  {
    hide Shaped, CountsIndexFor, ValueAtIndex, NextNonEquivalent, SizeOfEquivalentValueRange, LowestEquivalent, Shl;
    FirstSlotIsZero(c);
    SlotsMeet(c, 0);
    HighestOfZero(c);
    SlotTiling(c, INT64_MAX, 0);
    Pow2Values();
    Pow2Mono(c.unitMagnitude, 62);
  }

  /** hdr_min agrees unless the histogram holds nothing but INT64_MAX. */
  lemma MinAgreesIff(c: Config, log: seq<Rec>)
    requires Shaped(c) && PositiveCounts(log) && c.unitMagnitude + c.halfMagnitude <= 61
    requires forall k :: 0 <= k < |log| ==> log[k].value <= INT64_MAX
    ensures var h := Replay(c, log); h.counts != [] && h.minValue >= 0 && Recompute(h).minValue >= 0
    ensures Min(Recompute(Replay(c, log))) == Min(Replay(c, log))
            <==> !(SomeAccepted(c, log) && AllAccepted(c, log, INT64_MAX))
  {
    var h := Replay(c, log);
    CountsNonEmpty(c);
    ReplayDescribes(c, log);
    MinNonNegative(c, log, h.minValue);
    if !SomeAccepted(c, log) {
      NothingRecorded(c, log, h);
      hide CountsIndexFor, Shaped, Replay, PositiveCounts, ValueAtIndex, HighestEquivalent, LowestEquivalent,
           LastPositive, PositiveSum;
    } else {
      var a := LeastAccepted(c, log);
      if CountsIndexFor(c, log[a].value) == 0 {
        SlotPositive(c, log, 0);
        MaxIsNotLowest(c);
        hide CountsIndexFor, Shaped, Replay, PositiveCounts, ValueAtIndex, HighestEquivalent, LowestEquivalent,
             LastPositive, PositiveSum, FirstPositive;
        assert h.counts[0] > 0;
      } else {
        FirstIsMinSlot(c, log, h, a);
        MinOfPositive(c, log, h, a);
      }
    }
  }

  lemma MinNonNegative(c: Config, log: seq<Rec>, m: int)
    requires Shaped(c) && IsMinOf(c, log, m)
    ensures m >= 0
  {
    hide Shaped, CountsIndexFor;
  }

  lemma {:induction false} LeastAccepted(c: Config, log: seq<Rec>) returns (a: nat)
    requires Shaped(c) && SomeAccepted(c, log)
    ensures a < |log| && Accepts(c, log[a].value)
    ensures forall k :: 0 <= k < |log| && Accepts(c, log[k].value) ==> log[a].value <= log[k].value
  {
    hide Shaped, Accepts;
    a :| 0 <= a < |log| && Accepts(c, log[a].value);
    for n := 0 to |log|
      invariant a < |log| && Accepts(c, log[a].value)
      invariant forall k :: 0 <= k < n && Accepts(c, log[k].value) ==> log[a].value <= log[k].value
    {
      if Accepts(c, log[n].value) && log[n].value < log[a].value { a := n; }
    }
  }

  lemma MinOfPositive(c: Config, log: seq<Rec>, h: Hist, a: nat)
    requires Shaped(c) && c.unitMagnitude + c.halfMagnitude <= 61 && Describes(h, log) && h.cfg == c
    requires forall k :: 0 <= k < |log| ==> log[k].value <= INT64_MAX
    requires a < |log| && Accepts(c, log[a].value) && CountsIndexFor(c, log[a].value) > 0
    requires forall k :: 0 <= k < |log| && Accepts(c, log[k].value) ==> log[a].value <= log[k].value
    requires h.counts != [] && h.counts[0] == 0 && h.minValue >= 0
    requires FirstPositive(h.counts) == CountsIndexFor(c, log[a].value)
    ensures Recompute(h).minValue >= 0
    ensures Min(Recompute(h)) == Min(h) <==> !(SomeAccepted(c, log) && AllAccepted(c, log, INT64_MAX))
  {
    var x := log[a].value;
    assert x != 0 by { SlotZeroValue(c); }
    assert h.minValue == x;
    assert x == INT64_MAX <==> AllAccepted(c, log, INT64_MAX);
    MaxIsNotLowest(c);
    SlotBounds(c, x);
    ValueAtIndexOfValue(c, x);
    hide CountsIndexFor, Shaped, ValueAtIndex, HighestEquivalent, LowestEquivalent, LastPositive, PositiveSum,
         FirstPositive, SlotSum, LogTotal, IsMinOf, IsMaxOf, AllAccepted, Accepts;
    LowestIsSmaller(c, x);
  }

  lemma SlotZeroValue(c: Config)
    requires Shaped(c)
    ensures CountsIndexFor(c, 0) == 0
  {
    hide Shaped, CountsIndexFor, ValueAtIndex;
    FirstSlotIsZero(c);
    IndexOfValueAtIndex(c, 0);
  }

  lemma LowestIsSmaller(c: Config, x: nat)
    requires Shaped(c)
    ensures LowestEquivalent(c, x) <= x
  {
    InOwnRange(c, x);
  }

  // ----- what the kept and the recomputed extremes are -----

  /** hdr_max is the top of the slot of the largest recorded value, except that a
      largest value of 0, or nothing recorded, gives 0. */
  lemma MaxIs(c: Config, log: seq<Rec>)
    requires Shaped(c)
    ensures Replay(c, log).maxValue >= 0
    ensures !SomeAccepted(c, log) ==> Max(Replay(c, log)) == 0
    ensures forall a :: 0 <= a < |log| && IsLargest(c, log, a) ==>
              Max(Replay(c, log)) == if log[a].value == 0 then 0 else HighestEquivalent(c, log[a].value)
  {
    hide CountsIndexFor, Shaped, Replay, SlotSum, LogTotal, IsMinOf, HighestEquivalent;
    ReplayDescribes(c, log);
  }

  /** Record a is accepted and none of a larger value is. */
  predicate IsLargest(c: Config, log: seq<Rec>, a: nat)
    requires Shaped(c) && a < |log|
  {
    Accepts(c, log[a].value) && forall k :: 0 <= k < |log| && Accepts(c, log[k].value) ==> log[k].value <= log[a].value
  }

  /** Record a is accepted and none of a smaller value is. */
  predicate IsSmallest(c: Config, log: seq<Rec>, a: nat)
    requires Shaped(c) && a < |log|
  {
    Accepts(c, log[a].value) && forall k :: 0 <= k < |log| && Accepts(c, log[k].value) ==> log[a].value <= log[k].value
  }

  /** hdr_min is the bottom of the slot of the smallest recorded value, except that
      INT64_MAX, or nothing recorded, gives INT64_MAX. */
  lemma MinIs(c: Config, log: seq<Rec>, a: nat)
    requires Shaped(c) && PositiveCounts(log) && c.unitMagnitude + c.halfMagnitude <= 61
    requires a < |log| && IsSmallest(c, log, a) && log[a].value <= INT64_MAX
    ensures Replay(c, log).counts != [] && Replay(c, log).minValue >= 0
    ensures Min(Replay(c, log))
            == if log[a].value == INT64_MAX then INT64_MAX else LowestEquivalent(c, log[a].value)
  {
    var h, x := Replay(c, log), log[a].value;
    CountsNonEmpty(c);
    ReplayDescribes(c, log);
    MinNonNegative(c, log, h.minValue);
    SlotPositive(c, log, 0);
    MaxIsNotLowest(c);
    ValueAtIndexOfValue(c, x);
    FirstSlotIsZero(c);
    if CountsIndexFor(c, x) == 0 {
      hide Shaped, Replay, PositiveCounts, ValueAtIndex, LowestEquivalent, CountsIndexFor;
    } else {
      FirstIsMinSlot(c, log, h, a);
      KeptMinIs(c, log, h.minValue, a);
      hide Shaped, Replay, PositiveCounts, ValueAtIndex, LowestEquivalent, CountsIndexFor;
    }
  }

  lemma KeptMinIs(c: Config, log: seq<Rec>, m: int, a: nat)
    requires Shaped(c) && IsMinOf(c, log, m) && a < |log| && IsSmallest(c, log, a)
    requires CountsIndexFor(c, log[a].value) > 0 && log[a].value <= INT64_MAX
    ensures m == log[a].value
  {
    SlotZeroValue(c);
    hide Shaped, Accepts, CountsIndexFor;
  }

  lemma MinOfNothing(c: Config, log: seq<Rec>)
    requires Shaped(c) && PositiveCounts(log) && !SomeAccepted(c, log)
    ensures Replay(c, log).counts != [] && Replay(c, log).minValue >= 0 && Min(Replay(c, log)) == INT64_MAX
  {
    CountsNonEmpty(c);
    ReplayDescribes(c, log);
    NothingRecorded(c, log, Replay(c, log));
    hide Shaped, Replay, PositiveCounts, SomeAccepted;
  }

  /** The recomputed maximum is the top of the slot of the largest recorded value. */
  lemma RecomputedMaxIs(c: Config, log: seq<Rec>, a: nat)
    requires Shaped(c) && PositiveCounts(log) && a < |log| && IsLargest(c, log, a)
    ensures Recompute(Replay(c, log)).maxValue == HighestEquivalent(c, log[a].value)
  {
    var h := Replay(c, log);
    ReplayDescribes(c, log);
    LastIsMaxSlot(c, log, h);
    KeptMaxIs(c, log, h.maxValue, a);
    hide CountsIndexFor, Shaped, Replay, PositiveCounts, ValueAtIndex, HighestEquivalent, FirstPositive, PositiveSum,
         LastPositive;
    SlotBounds(c, log[a].value);
  }

  lemma KeptMaxIs(c: Config, log: seq<Rec>, m: int, a: nat)
    requires Shaped(c) && IsMaxOf(c, log, m) && a < |log| && IsLargest(c, log, a)
    ensures m == log[a].value >= 0
  {
    hide Shaped, CountsIndexFor;
  }

  /** The recomputed minimum is the bottom of the slot of the smallest value recorded
      outside slot 0. */
  lemma RecomputedMinIs(c: Config, log: seq<Rec>, a: nat)
    requires Shaped(c) && PositiveCounts(log)
    requires a < |log| && Accepts(c, log[a].value) && CountsIndexFor(c, log[a].value) > 0
    requires forall k :: 0 <= k < |log| && Accepts(c, log[k].value) && CountsIndexFor(c, log[k].value) > 0 ==>
               log[a].value <= log[k].value
    ensures Recompute(Replay(c, log)).minValue == LowestEquivalent(c, log[a].value)
  {
    var h, i := Replay(c, log), CountsIndexFor(c, log[a].value);
    ValueAtIndexOfValue(c, log[a].value);
    FirstOutsideZero(c, log, h, a);
    hide CountsIndexFor, Shaped, Replay, PositiveCounts, ValueAtIndex, HighestEquivalent, LowestEquivalent,
         FirstPositive, PositiveSum, LastPositive;
  }

  lemma FirstOutsideZero(c: Config, log: seq<Rec>, h: Hist, a: nat)
    requires Shaped(c) && PositiveCounts(log) && h == Replay(c, log)
    requires a < |log| && Accepts(c, log[a].value) && CountsIndexFor(c, log[a].value) > 0
    requires forall k :: 0 <= k < |log| && Accepts(c, log[k].value) && CountsIndexFor(c, log[k].value) > 0 ==>
               log[a].value <= log[k].value
    ensures FirstPositive(h.counts) == CountsIndexFor(c, log[a].value)
  {
    hide CountsIndexFor, Shaped, Replay, PositiveCounts, SlotSum, LogTotal, IsMinOf, IsMaxOf;
    ReplayDescribes(c, log);
    var i := CountsIndexFor(c, log[a].value);
    SlotPositive(c, log, i);
    assert h.counts[i] > 0;
    forall j | 0 < j < i ensures h.counts[j] <= 0 {
      SlotPositive(c, log, j);
      if k :| 0 <= k < |log| && Accepts(c, log[k].value) && CountsIndexFor(c, log[k].value) == j {
        CountsIndexMonotone(c, log[a].value, log[k].value);
      }
    }
    FirstPositiveIs(h.counts, i);
  }

  // ----- the two disagreements, on concrete records -----

  lemma ZerosDisagree(c: Config)
    requires Shaped(c) && c.unitMagnitude > 0
    ensures var h := Replay(c, [Rec(0, 1, 0)]);
            h.maxValue >= 0 && Recompute(h).maxValue >= 0 && Max(Recompute(h)) != Max(h)
  {
    var log := [Rec(0, 1, 0)];
    SlotZeroValue(c);
    CountsNonEmpty(c);
    assert Accepts(c, log[0].value);
    hide Replay, Shaped, CountsIndexFor, Recompute, Max;
    MaxAgreesIff(c, log);
  }

  lemma LargestDisagrees(c: Config)
    requires Shaped(c) && c.unitMagnitude + c.halfMagnitude <= 61 && Accepts(c, INT64_MAX)
    ensures var h := Replay(c, [Rec(INT64_MAX, 1, 0)]);
            h.counts != [] && h.minValue >= 0 && Recompute(h).minValue >= 0 && Min(Recompute(h)) != Min(h)
  {
    var log := [Rec(INT64_MAX, 1, 0)];
    assert Accepts(c, log[0].value);
    hide Replay, Shaped, CountsIndexFor, Recompute, Min;
    MinAgreesIff(c, log);
  }
}
