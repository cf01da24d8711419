/** struct hdr_histogram and struct hdr_iter as objects: the operations that
    update them in place, each proved against the functions on histogram values. */
module Histograms {
  import opened Basics
  import opened Bits
  import opened Buckets
  import opened HistogramModel
  import opened OrderStatistics
  import opened Counters
  import opened Merging
  import opened BatchPercentiles
  import opened Levels

  class Histogram {
    const cfg: Config
    const counts: array<int>
    var totalCount: int
    var minValue: int
    var maxValue: int

    ghost predicate WellFormed()
      reads this
    {
      Shaped(cfg) && counts.Length == cfg.countsLen
    }

    /** The histogram as a value. */
    ghost function View(): (h: Hist)
      reads this, counts
      requires WellFormed()
      ensures Valid(h) && h.cfg == cfg
    {
      Hist(cfg, counts[..], totalCount, minValue, maxValue)
    }

    /** hdr_init for a calculated configuration. */
    constructor (c: Config)
      requires Shaped(c)
      ensures WellFormed() && cfg == c && fresh(counts) && View() == Empty(c)
    {
      cfg := c;
      counts := new int[c.countsLen](_ => 0);
      totalCount, minValue, maxValue := 0, INT64_MAX, 0;
    }

    method Reset()
      requires WellFormed()
      modifies this, counts
      ensures WellFormed() && View() == Empty(cfg)
    {
      totalCount, minValue, maxValue := 0, INT64_MAX, 0;
      forall i | 0 <= i < counts.Length { counts[i] := 0; }
    }

    method RecordValues(value: int, count: int) returns (ok: bool)
      requires WellFormed()
      modifies this, counts
      ensures WellFormed() && ok == Accepts(cfg, value)
      ensures View() == Record(old(View()), Rec(value, count, 0))
    {
      hide CountsIndexFor, Shaped;
      if value < 0 {
        return false;
      }
      var countsIndex := CountsIndexFor(cfg, value);
      if countsIndex < 0 || cfg.countsLen <= countsIndex {
        return false;
      }
      counts[countsIndex] := counts[countsIndex] + count;
      totalCount := totalCount + count;
      minValue := if value < minValue && value != 0 then value else minValue;
      maxValue := if value > maxValue then value else maxValue;
      return true;
    }

    method RecordCorrectedValues(value: int, count: int, expectedInterval: int) returns (ok: bool)
      requires WellFormed()
      modifies this, counts
      ensures WellFormed() && ok == Accepts(cfg, value)
      ensures View() == if ok then RecordAll(old(View()), Corrected(value, count, expectedInterval)) else old(View())
      ensures ok && (expectedInterval <= 0 || value <= expectedInterval) ==>
                View() == Record(old(View()), Rec(value, count, 0))
    {
      hide CountsIndexFor, Shaped, Record;
      ghost var h0 := View();
      var recorded := RecordValues(value, count);
      if !recorded {
        RefusedIsNothing(h0, Rec(value, count, 0));
        return false;
      }
      ghost var h1 := Record(h0, Rec(value, count, 0));
      assert RecordAll(h0, [Rec(value, count, 0)]) == h1 by { assert [Rec(value, count, 0)][1..] == []; }
      if expectedInterval <= 0 || value <= expectedInterval {
        return true;
      }
      var missing := value - expectedInterval;
      assert RecordAll(h0, Corrected(value, count, expectedInterval))
          == RecordAll(h1, Backfill(missing, count, expectedInterval)) by {
        assert Corrected(value, count, expectedInterval)[1..] == Backfill(missing, count, expectedInterval);
      }
      while missing >= expectedInterval
        invariant WellFormed() && missing < value
        invariant RecordAll(View(), Backfill(missing, count, expectedInterval))
               == RecordAll(h0, Corrected(value, count, expectedInterval))
        decreases missing
      {
        assert Accepts(cfg, missing) by { CountsIndexMonotone(cfg, missing, value); }
        assert Backfill(missing, count, expectedInterval)[1..]
            == Backfill(missing - expectedInterval, count, expectedInterval);
        recorded := RecordValues(missing, count);
        if !recorded {
          assert false;
          return false;
        }
        missing := missing - expectedInterval;
      }
      return true;
    }

    /** hdr_reset_internal_counters */
    method ResetInternalCounters()
      requires WellFormed()
      modifies this
      ensures WellFormed() && View() == Recompute(old(View()))
    {
      hide Shaped, ValueAtIndex, HighestEquivalent;
      ghost var h0 := View();
      var minNonZeroIndex := -1;
      var maxIndex := -1;
      var observedTotal := 0;
      for i := 0 to counts.Length
        invariant minNonZeroIndex == FirstPositive(counts[..i])
        invariant maxIndex == LastPositive(counts[..i])
        invariant observedTotal == PositiveSum(counts[..i])
      {
        assert counts[..i + 1][..i] == counts[..i];
        var countAtIndex := counts[i];
        if countAtIndex > 0 {
          observedTotal := observedTotal + countAtIndex;
          maxIndex := i;
          if minNonZeroIndex == -1 && i != 0 {
            minNonZeroIndex := i;
          }
        }
      }
      assert counts[..counts.Length] == counts[..];
      maxValue := if maxIndex == -1 then 0 else HighestEquivalent(cfg, ValueAtIndex(cfg, maxIndex));
      minValue := if minNonZeroIndex == -1 then INT64_MAX else ValueAtIndex(cfg, minNonZeroIndex);
      totalCount := observedTotal;
    }

    /** get_value_from_idx_up_to_count */
    method GetValueFromIdxUpToCount(countAtPercentile: int) returns (v: nat)
      requires WellFormed()
      ensures v == ValueAtCount(View(), if 0 < countAtPercentile then countAtPercentile else 1)
    {
      hide Shaped, ValueAtIndex;
      var k := if 0 < countAtPercentile then countAtPercentile else 1;
      var countToIdx := 0;
      for idx := 0 to counts.Length
        invariant countToIdx == PrefixSum(counts[..], idx)
        invariant FirstReaching(counts[..], k, 0) == FirstReaching(counts[..], k, idx)
      {
        countToIdx := countToIdx + counts[idx];
        if countToIdx >= k {
          return ValueAtIndex(cfg, idx);
        }
      }
      return 0;
    }

    /** hdr_value_at_percentile */
    method ValueAtPercentile(percentile: real) returns (v: int)
      requires WellFormed()
      ensures v == OrderStatistics.ValueAtPercentile(View(), percentile)
    {
      hide Shaped, LowestEquivalent, HighestEquivalent, ValueAtIndex, Target;
      var requested := if percentile < 100.0 then percentile else 100.0;
      var countAtPercentile := Truncate(Target(requested, totalCount));
      var fromIdx := GetValueFromIdxUpToCount(countAtPercentile);
      if percentile == 0.0 {
        return LowestEquivalent(cfg, fromIdx);
      }
      return HighestEquivalent(cfg, fromIdx);
    }
  }

  /** Non-negative counts that add up to the total: what recording builds. */
  predicate Consistent(counts: seq<int>, total: int) {
    && (forall i :: 0 <= i < |counts| ==> counts[i] >= 0)
    && total == SumOf(counts)
  }

  /** Once the running count has reached the total, every later slot is empty. */
  lemma TailIsZero(counts: seq<int>, total: int, n: nat)
    requires Consistent(counts, total) && n <= |counts| && PrefixSum(counts, n) >= total
    ensures forall j :: n <= j < |counts| ==> counts[j] == 0
  {
    forall j | n <= j < |counts| ensures counts[j] == 0 {
      PrefixMonotone(counts, n, j);
      PrefixMonotone(counts, j + 1, |counts|);
    }
  }

  lemma {:induction false} SlotRecsSkip(c: Config, counts: seq<int>, m: nat, n: nat)
    requires Shaped(c) && m <= n <= |counts| && forall j :: m <= j < n ==> counts[j] == 0
    ensures SlotRecs(c, counts, n) == SlotRecs(c, counts, m)
    decreases n
  {
    hide ValueAtIndex, Shaped;
    if m < n { SlotRecsSkip(c, counts, m, n - 1); }
  }

  class Iter {
    const h: Histogram
    ghost const base: seq<int>
    var countsIndex: int
    var totalCount: int
    var count: int
    var cumulativeCount: int
    var value: nat
    var lowestEquivalentValue: int
    var highestEquivalentValue: int
    var medianEquivalentValue: int
    var valueIteratedFrom: int
    var valueIteratedTo: int
    var countAddedInThisStep: int
    var stepping: Stepping
    var reportingLevel: int
    var reportingLevelLowest: int

    /** Slots passed so far. */
    ghost function Seen(): (n: nat)
      reads this
      requires -1 <= countsIndex
      ensures n <= |base|
    {
      if countsIndex < |base| then countsIndex + 1 else |base|
    }

    /** `base` is the source's counts when the iterator was set up; the slots
        still ahead have not changed since. */
    ghost predicate WellFormed()
      reads this, h, h.counts
    {
      && h.WellFormed() && |base| == h.counts.Length && |base| > 0
      && Consistent(base, totalCount)
      && -1 <= countsIndex
      && cumulativeCount == PrefixSum(base, Seen())
      && (forall j :: Seen() <= j < |base| ==> h.counts[j] == base[j])
      && value == (if countsIndex == -1 then 0 else ValueAtIndex(h.cfg, Seen() - 1))
      && count == (if countsIndex == -1 then 0 else base[Seen() - 1])
    }

    /** hdr_iter_init */
    constructor (source: Histogram)
      requires source.WellFormed() && Consistent(source.counts[..], source.totalCount)
      ensures h == source && base == source.counts[..] && WellFormed() && countsIndex == -1 && Seen() == 0
      ensures totalCount == source.totalCount && valueIteratedFrom == 0 && valueIteratedTo == 0
    {
      CountsNonEmpty(source.cfg);
      h, base := source, source.counts[..];
      countsIndex, totalCount, count, cumulativeCount, value := -1, source.totalCount, 0, 0, 0;
      lowestEquivalentValue, highestEquivalentValue, medianEquivalentValue := 0, 0, 0;
      valueIteratedFrom, valueIteratedTo, countAddedInThisStep := 0, 0, 0;
      stepping, reportingLevel, reportingLevelLowest := Linear(0), 0, 0;
    }

    method HasNext() returns (b: bool)
      requires WellFormed()
      ensures b == (PrefixSum(base, Seen()) < SumOf(base))
      ensures b ==> Seen() < |base|
    {
      b := cumulativeCount < totalCount;
    }

    /** move_next */
    method MoveNext() returns (ok: bool)
      requires WellFormed()
      modifies this
      ensures WellFormed() && countsIndex == old(countsIndex) + 1 && ok == (countsIndex < |base|)
      ensures ok ==> Seen() == old(Seen()) + 1
      ensures ok ==> lowestEquivalentValue == value && highestEquivalentValue == HighestEquivalent(h.cfg, value)
                     && medianEquivalentValue == value + SizeOfEquivalentValueRange(h.cfg, value) / 2
      ensures unchanged(`reportingLevel) && unchanged(`reportingLevelLowest) && unchanged(`stepping)
              && unchanged(`countAddedInThisStep) && unchanged(`valueIteratedTo)
    {
      hide Shaped, ValueAtIndex, LowestEquivalent, SizeOfEquivalentValueRange;
      countsIndex := countsIndex + 1;
      if !(countsIndex < h.counts.Length) {
        return false;
      }
      count := h.counts[countsIndex];
      cumulativeCount := cumulativeCount + count;
      value := ValueAtIndex(h.cfg, countsIndex);
      var leq: int := LowestEquivalent(h.cfg, value);
      var size: int := SizeOfEquivalentValueRange(h.cfg, value);
      SlotsMeet(h.cfg, countsIndex);
      lowestEquivalentValue := leq;
      highestEquivalentValue := leq + size - 1;
      medianEquivalentValue := leq + size / 2;
      return true;
    }

    /** recorded_iter_next: on to the next slot that holds anything. */
    method RecordedNext() returns (more: bool)
      requires WellFormed()
      modifies this
      ensures WellFormed() && -1 <= countsIndex
      ensures more ==> old(Seen()) < Seen() == countsIndex + 1 && count == base[countsIndex] != 0
                       && value == ValueAtIndex(h.cfg, countsIndex) && countAddedInThisStep == count
                       && valueIteratedFrom == old(valueIteratedTo) && valueIteratedTo == value
                       && (forall j :: old(Seen()) <= j < Seen() - 1 ==> base[j] == 0)
      ensures !more ==> forall j :: old(Seen()) <= j < |base| ==> base[j] == 0
    {
      hide Shaped, ValueAtIndex, HighestEquivalent, SizeOfEquivalentValueRange, PrefixSum;
      while true
        invariant WellFormed() && old(Seen()) <= Seen()
        invariant forall j :: old(Seen()) <= j < Seen() ==> base[j] == 0
        invariant unchanged(`valueIteratedTo)
        decreases |base| - Seen()
      {
        // basic_iter_next
        var hasNext := HasNext();
        if !hasNext || countsIndex >= h.counts.Length {
          TailIsZero(base, totalCount, Seen());
          return false;
        }
        var moved := MoveNext();
        if count != 0 {
          valueIteratedFrom := valueIteratedTo;
          valueIteratedTo := value;
          countAddedInThisStep := count;
          return true;
        }
      }
    }

    /** hdr_iter_linear_init and hdr_iter_log_init, once hdr_iter_init has run; a
        linear iterator's first level is its step. */
    method StartLevels(st: Stepping, firstLevel: nat)
      requires WellFormed() && Advances(st, firstLevel) && countsIndex == -1
      modifies `stepping, `reportingLevel, `reportingLevelLowest, `countAddedInThisStep
      ensures WellFormed() && LevelsSet() && stepping == st && reportingLevel == firstLevel && countAddedInThisStep == 0
    {
      hide Shaped, ValueAtIndex, LowestEquivalent;
      countAddedInThisStep, stepping, reportingLevel := 0, st, firstLevel;
      reportingLevelLowest := LowestEquivalent(h.cfg, firstLevel);
    }

    ghost predicate LevelsSet()
      reads this, h
    {
      && Shaped(h.cfg) && reportingLevel >= 0
      && reportingLevelLowest == LowestEquivalent(h.cfg, reportingLevel)
      && Advances(stepping, reportingLevel)
      && countsIndex <= CountsIndexFor(h.cfg, reportingLevel)
    }

    /** How far the level is below the end of the current slot. */
    ghost function Gap(): nat
      reads this, h
      requires Shaped(h.cfg)
    {
      var next := NextNonEquivalent(h.cfg, value);
      if reportingLevel < next then next - reportingLevel else 0
    }

    /** Reporting: the level moves on. */
    method Report()
      requires WellFormed() && LevelsSet() && -1 <= countsIndex < |base| && reportingLevelLowest <= value
      modifies `valueIteratedFrom, `valueIteratedTo, `reportingLevel, `reportingLevelLowest
      ensures WellFormed() && LevelsSet() && Gap() < old(Gap())
      ensures reportingLevel == NextLevel(stepping, old(reportingLevel))
      ensures valueIteratedTo == old(reportingLevel) && valueIteratedFrom == old(valueIteratedTo)
      ensures var slot := CountsIndexFor(h.cfg, old(reportingLevel));
              countsIndex == if slot == 0 && countsIndex == -1 then -1 else slot
    {
      hide Shaped, ValueAtIndex, LowestEquivalent, PrefixSum, NextNonEquivalent, Consistent, CountsIndexFor;
      SlotBefore(h.cfg, if countsIndex == -1 then 0 else countsIndex, reportingLevel);
      LevelRises(stepping, reportingLevel);
      CountsIndexMonotone(h.cfg, reportingLevel, NextLevel(stepping, reportingLevel));
      LevelInsideSlot(h.cfg, reportingLevel, value);
      valueIteratedFrom, valueIteratedTo := valueIteratedTo, reportingLevel;
      reportingLevel := NextLevel(stepping, reportingLevel);
      reportingLevelLowest := LowestEquivalent(h.cfg, reportingLevel);
    }

    /** iter_linear_next and log_iter_next, which differ only in how the level
        moves on. A step either reports at the first slot whose value reaches the
        level's slot, or runs off the end; it counts exactly the slots it passed. */
    method LevelNext() returns (more: bool)
      requires WellFormed() && LevelsSet()
      modifies this
      ensures WellFormed() && LevelsSet() && -1 <= countsIndex && stepping == old(stepping)
      ensures old(Seen()) <= Seen()
      ensures countAddedInThisStep == PrefixSum(base, Seen()) - PrefixSum(base, old(Seen()))
      ensures forall i :: old(Seen()) <= i < Seen() - 1 ==> ValueAtIndex(h.cfg, i) < old(reportingLevelLowest)
      ensures more <==> old(PrefixSum(base, Seen())) < SumOf(base)
                        || (old(countsIndex) < |base|
                            && CountsIndexFor(h.cfg, old(reportingLevel)) <= old(countsIndex))
      ensures !more ==> cumulativeCount == totalCount
      ensures !more ==> countsIndex == old(countsIndex) && reportingLevel == old(reportingLevel)
      ensures more && countsIndex == |base| ==> old(countsIndex) < countsIndex && reportingLevel == old(reportingLevel)
      ensures more && countsIndex != |base| ==>
                && old(countsIndex) <= countsIndex < |base| && old(reportingLevelLowest) <= value
                && LandsAt(countsIndex, CountsIndexFor(h.cfg, old(reportingLevel)), old(countsIndex))
                && reportingLevel == NextLevel(stepping, old(reportingLevel))
                && valueIteratedTo == old(reportingLevel) && valueIteratedFrom == old(valueIteratedTo)
      ensures more ==> countsIndex > old(countsIndex) || (countsIndex == old(countsIndex) && Gap() < old(Gap()))
    {
      hide Shaped, ValueAtIndex, LowestEquivalent, NextNonEquivalent, HighestEquivalent, CountsIndexFor;
      countAddedInThisStep := 0;
      var hasNext := HasNext();
      SlotBefore(h.cfg, countsIndex + 1, reportingLevel);
      if !hasNext {
        PrefixMonotone(base, Seen(), |base|);
        if countsIndex >= h.counts.Length || ValueAtIndex(h.cfg, countsIndex + 1) <= reportingLevelLowest {
          return false;
        }
      }
      hide *;
      ReachLevel();
      return true;
    }

    /** The loop of iter_linear_next and log_iter_next. */
    method ReachLevel()
      requires WellFormed() && LevelsSet() && -1 <= countsIndex < |base| && countAddedInThisStep == 0
      modifies this
      ensures WellFormed() && LevelsSet() && -1 <= countsIndex && stepping == old(stepping)
      ensures old(Seen()) <= Seen()
      ensures countAddedInThisStep == PrefixSum(base, Seen()) - PrefixSum(base, old(Seen()))
      ensures forall i :: old(Seen()) <= i < Seen() - 1 ==> ValueAtIndex(h.cfg, i) < old(reportingLevelLowest)
      ensures countsIndex == |base| ==> old(countsIndex) < countsIndex && reportingLevel == old(reportingLevel)
      ensures countsIndex != |base| ==>
                && old(countsIndex) <= countsIndex < |base| && old(reportingLevelLowest) <= value
                && LandsAt(countsIndex, CountsIndexFor(h.cfg, old(reportingLevel)), old(countsIndex))
                && reportingLevel == NextLevel(stepping, old(reportingLevel))
                && valueIteratedTo == old(reportingLevel) && valueIteratedFrom == old(valueIteratedTo)
      ensures countsIndex > old(countsIndex) || (countsIndex == old(countsIndex) && Gap() < old(Gap()))
    {
      hide Shaped, ValueAtIndex, LowestEquivalent, NextNonEquivalent, HighestEquivalent, PrefixSum, Advances,
           NextLevel, Consistent, CountsIndexFor;
      assert Shaped(h.cfg);
      ghost var n := Seen();
      while value < reportingLevelLowest
        invariant WellFormed() && LevelsSet() && n <= Seen()
        invariant old(countsIndex) <= countsIndex < |base|
        invariant countsIndex == old(countsIndex) ==> Gap() == old(Gap())
        invariant CountsIndexFor(h.cfg, reportingLevel) == 0 ==> countsIndex == old(countsIndex)
        invariant countAddedInThisStep == PrefixSum(base, Seen()) - PrefixSum(base, n)
        invariant unchanged(`reportingLevel) && unchanged(`reportingLevelLowest) && unchanged(`stepping)
        invariant unchanged(`valueIteratedTo)
        invariant forall i :: n <= i < Seen() - 1 ==> ValueAtIndex(h.cfg, i) < reportingLevelLowest
        decreases |base| - countsIndex
      {
        SlotBefore(h.cfg, if countsIndex == -1 then 0 else countsIndex, reportingLevel);
        var moved := PassSlot();
        if !moved {
          return;
        }
      }
      Report();
    }

    /** move_next, counting what the slot holds. */
    method PassSlot() returns (moved: bool)
      requires WellFormed() && -1 <= countsIndex < |base|
      modifies this
      ensures WellFormed() && countsIndex == old(countsIndex) + 1 && moved == (countsIndex < |base|)
      ensures Seen() == if moved then old(Seen()) + 1 else old(Seen())
      ensures countAddedInThisStep == old(countAddedInThisStep) + PrefixSum(base, Seen()) - PrefixSum(base, old(Seen()))
      ensures unchanged(`reportingLevel) && unchanged(`reportingLevelLowest)
              && unchanged(`stepping) && unchanged(`valueIteratedTo)
    {
      hide ValueAtIndex, HighestEquivalent, PrefixSum, Consistent;
      PrefixStep(base, Seen());
      moved := MoveNext();
      if moved {
        countAddedInThisStep := countAddedInThisStep + count;
      }
    }
  }

  /** A report is made in the level's slot, or before slot 0 if nothing was passed yet. */
  predicate LandsAt(index: int, slot: nat, from: int) {
    index == if slot == 0 && from == -1 then -1 else slot
  }

  lemma PrefixStep(s: seq<int>, n: nat)
    requires n <= |s|
    ensures n < |s| ==> PrefixSum(s, n + 1) == PrefixSum(s, n) + s[n]
  {
  }

  /** A client's loop over a linear or logarithmic iterator: the level of each
      report and the count of each step. It ends; the n-th report is at the n-th
      level and has counted the slots up to the level's; the last step is the last
      one due; and the counts add up to the total. */
  method CollectLevels(h: Histogram, st: Stepping, firstLevel: nat) returns (levels: seq<int>, added: seq<int>)
    requires h.WellFormed() && Consistent(h.counts[..], h.totalCount) && Advances(st, firstLevel)
    ensures SumOf(added) == h.totalCount && |levels| <= |added| <= |levels| + 1
    ensures forall i :: 0 <= i < |levels| ==> Reported(h.cfg, h.counts[..], st, firstLevel, levels, added, i)
    ensures st.Linear? ==> forall i :: 0 <= i < |levels| ==> levels[i] == firstLevel + i * st.units
    ensures st.Logarithmic? ==> forall i :: 0 <= i < |levels| ==> levels[i] == firstLevel * Power(st.base, i)
    ensures if |added| == |levels| then !Due(h.cfg, h.counts[..], st, firstLevel, |levels|)
            else RunsOff(h.cfg, h.counts[..], st, firstLevel, |levels|)
  {
    var iter := new Iter(h);
    iter.StartLevels(st, firstLevel);
    levels, added := [], [];
    CollectNothing(h.cfg, h.counts[..], st, firstLevel);
    NextLevelIs(st, firstLevel, 0);
    assert iter.totalCount == h.totalCount == SumOf(h.counts[..]);
    assert Shaped(h.cfg) && |h.counts[..]| > 0;
    ghost var counts := h.counts[..];
    hide *;
    var more := true;
    while more
      invariant iter.WellFormed() && iter.LevelsSet() && iter.h == h && fresh(iter)
      invariant iter.base == counts && iter.stepping == st
      invariant -1 <= iter.countsIndex
      invariant Collected(h.cfg, counts, st, firstLevel, levels, added, iter.countsIndex)
      invariant iter.reportingLevel == LevelAt(st, firstLevel, |levels|)
      invariant !more ==> Stopped(h.cfg, counts, st, firstLevel, levels, added)
      decreases more, |iter.base| - iter.countsIndex, iter.Gap()
    {
      more, levels, added := CollectNext(iter, st, firstLevel, levels, added);
    }
    CollectedLevels(h.cfg, counts, st, firstLevel, levels, added, iter.countsIndex);
  }

  /** No step is due any more. */
  ghost predicate Stopped(c: Config, counts: seq<int>, st: Stepping, first: nat, levels: seq<int>, added: seq<int>)
    requires Shaped(c) && Advances(st, first)
  {
    && SumOf(added) == SumOf(counts)
    && (|added| == |levels| ==> !Due(c, counts, st, first, |levels|))
  }

  lemma CollectedLevels(c: Config, counts: seq<int>, st: Stepping, first: nat, levels: seq<int>, added: seq<int>,
                        index: int)
    requires Shaped(c) && Advances(st, first) && Collected(c, counts, st, first, levels, added, index)
    ensures |levels| <= |added| <= |levels| + 1
    ensures forall i :: 0 <= i < |levels| ==> Reported(c, counts, st, first, levels, added, i)
    ensures st.Linear? ==> forall i :: 0 <= i < |levels| ==> levels[i] == first + i * st.units
    ensures st.Logarithmic? ==> forall i :: 0 <= i < |levels| ==> levels[i] == first * Power(st.base, i)
    ensures |added| > |levels| ==> RunsOff(c, counts, st, first, |levels|)
  {
    hide Shaped, CountsIndexFor, Due, CountUpTo;
    forall i | 0 <= i < |levels| ensures levels[i] == LevelAt(st, first, i) {
      assert Reported(c, counts, st, first, levels, added, i);
    }
  }

  method CollectNext(iter: Iter, st: Stepping, firstLevel: nat, levels: seq<int>, added: seq<int>)
      returns (more: bool, levels': seq<int>, added': seq<int>)
    requires iter.WellFormed() && iter.LevelsSet() && -1 <= iter.countsIndex && Shaped(iter.h.cfg)
    requires Advances(st, firstLevel) && iter.stepping == st
    requires iter.reportingLevel == LevelAt(st, firstLevel, |levels|)
    requires Collected(iter.h.cfg, iter.base, st, firstLevel, levels, added, iter.countsIndex)
    modifies iter
    ensures iter.WellFormed() && iter.LevelsSet() && -1 <= iter.countsIndex && iter.stepping == st
    ensures iter.reportingLevel == LevelAt(st, firstLevel, |levels'|)
    ensures Collected(iter.h.cfg, iter.base, st, firstLevel, levels', added', iter.countsIndex)
    ensures !more ==> Stopped(iter.h.cfg, iter.base, st, firstLevel, levels', added')
    ensures iter.countsIndex <= |iter.base| || !more
    ensures more ==> iter.countsIndex > old(iter.countsIndex)
                     || (iter.countsIndex == old(iter.countsIndex) && iter.Gap() < old(iter.Gap()))
  {
    hide Shaped, ValueAtIndex, PrefixSum, LowestEquivalent, Advances, LevelAt, Reported, CountsIndexFor, NextLevel;
    ghost var index, c := iter.countsIndex, iter.h.cfg;
    more := iter.LevelNext();
    levels', added' := levels, added;
    if more {
      if iter.countsIndex == iter.h.counts.Length {
        CollectRunOff(c, iter.base, st, firstLevel, levels, added, index);
      } else {
        NextLevelIs(st, firstLevel, |levels|);
        CollectReport(c, iter.base, st, firstLevel, levels, added, index, iter.countsIndex);
        levels' := levels + [iter.valueIteratedTo];
      }
      added' := added + [iter.countAddedInThisStep];
    }
  }

  /** hdr_add: records every non-zero slot of the source, counting what is
      refused. The source may be the histogram itself. */
  method Add(h: Histogram, from: Histogram) returns (dropped: int)
    requires h.WellFormed() && from.WellFormed() && Consistent(from.counts[..], from.totalCount)
    requires h != from ==> h.counts != from.counts
    modifies h, h.counts
    ensures h.WellFormed()
    ensures (h.View(), dropped) == MergeOf(old(h.View()), old(from.View()), from.counts.Length)
  {
    var iter := new Iter(from);
    ghost var h0, source := h.View(), from.View();
    hide *;
    dropped := 0;
    MergeNothing(h0, source);
    var more := true;
    while more
      invariant h.WellFormed() && iter.WellFormed() && iter.h == from && fresh(iter) && iter.base == source.counts
      invariant -1 <= iter.countsIndex
      invariant (h.View(), dropped) == MergeOf(h0, source, if more then iter.Seen() else |source.counts|)
      decreases more, |source.counts| - iter.Seen()
    {
      more, dropped := AddNext(h, iter, dropped, h0, source);
    }
  }

  /** One turn of hdr_add's loop: the next occupied slot, if any, is recorded. */
  method AddNext(h: Histogram, iter: Iter, dropped: int, ghost h0: Hist, ghost source: Hist)
      returns (more: bool, dropped': int)
    requires h.WellFormed() && iter.WellFormed() && -1 <= iter.countsIndex
    requires h != iter.h ==> h.counts != iter.h.counts
    requires Valid(h0) && Valid(source) && iter.base == source.counts && iter.h.cfg == source.cfg
    requires (h.View(), dropped) == MergeOf(h0, source, iter.Seen())
    modifies h, h.counts, iter
    ensures h.WellFormed() && iter.WellFormed() && -1 <= iter.countsIndex
    ensures more ==> old(iter.Seen()) < iter.Seen()
    ensures (h.View(), dropped') == MergeOf(h0, source, if more then iter.Seen() else |source.counts|)
  {
    hide *;
    ghost var m := iter.Seen();
    dropped' := dropped;
    more := iter.RecordedNext();
    if !more {
      MergeTail(h0, source, m);
      return;
    }
    MergeStep(h0, source, m, iter.countsIndex);
    var ok := RecordSlot(h, iter);
    if !ok {
      dropped' := dropped + iter.count;
    }
  }

  /** Records the slot an iterator stands on, which may be a slot of h itself. */
  method RecordSlot(h: Histogram, iter: Iter) returns (ok: bool)
    requires h.WellFormed() && iter.WellFormed() && 0 <= iter.countsIndex < |iter.base|
    requires h != iter.h ==> h.counts != iter.h.counts
    modifies h, h.counts
    ensures h.WellFormed() && iter.WellFormed()
    ensures ok == Accepts(h.cfg, iter.value)
    ensures h.View() == Record(old(h.View()), Rec(iter.value, iter.count, 0))
  {
    hide Shaped, ValueAtIndex, CountsIndexFor, PrefixSum, Record;
    ghost var v := h.View();
    OtherSlotsKept(v, iter.h.cfg, iter.countsIndex, iter.count);
    ok := h.RecordValues(iter.value, iter.count);
    forall j | iter.Seen() <= j < |iter.base| ensures iter.h.counts[j] == iter.base[j] {
      if h == iter.h {
        assert h.View().counts[j] == v.counts[j];
      }
    }
  }

  lemma MergeTail(h: Hist, source: Hist, m: nat)
    requires Valid(h) && Valid(source) && m <= |source.counts|
    requires forall j :: m <= j < |source.counts| ==> source.counts[j] == 0
    ensures MergeOf(h, source, |source.counts|) == MergeOf(h, source, m)
  {
    hide Shaped, SlotRecs, RecordAll, Dropped;
    SlotRecsSkip(source.cfg, source.counts, m, |source.counts|);
  }

  /** Passing from slot m to the next occupied slot i adds one record to the batch. */
  lemma MergeStep(h: Hist, source: Hist, m: nat, i: nat)
    requires Valid(h) && Valid(source) && m <= i < |source.counts| && source.counts[i] != 0
    requires forall j :: m <= j < i ==> source.counts[j] == 0
    ensures var r := Rec(ValueAtIndex(source.cfg, i), source.counts[i], 0);
            var (h', dropped) := MergeOf(h, source, m);
            MergeOf(h, source, i + 1)
            == (Record(h', r), dropped + if Accepts(h'.cfg, r.value) then 0 else r.count)
  {
    hide Shaped, ValueAtIndex, CountsIndexFor, Record, RecordAll;
    var c, counts := source.cfg, source.counts;
    SlotRecsSkip(c, counts, m, i);
    var recs, r := SlotRecs(c, counts, i), Rec(ValueAtIndex(c, i), counts[i], 0);
    assert SlotRecs(c, counts, i + 1) == recs + [r] && (recs + [r])[..|recs|] == recs;
    RecordAllSnoc(h, recs, r);
  }

  /** Recording a slot's own value leaves every other slot alone. */
  lemma OtherSlotsKept(h: Hist, c: Config, i: nat, count: int)
    requires Valid(h) && Shaped(c)
    ensures h.cfg == c ==>
              forall j :: 0 <= j < |h.counts| && j != i ==>
                Record(h, Rec(ValueAtIndex(c, i), count, 0)).counts[j] == h.counts[j]
  {
    hide Shaped, ValueAtIndex, CountsIndexFor;
    IndexOfValueAtIndex(c, i);
  }

  /** hdr_value_at_percentiles: `values` first holds the counts looked for, then,
      entry by entry, the answers. */
  method ValueAtPercentiles(h: Histogram, percentiles: array?<real>, values: array?<int>, length: nat) returns (rc: int)
    requires h.WellFormed() && Consistent(h.counts[..], h.totalCount)
    requires percentiles != null ==> length <= percentiles.Length
    requires values != null ==> length <= values.Length && values != h.counts
    modifies if values == null then {} else {values}
    ensures percentiles == null || values == null ==> rc == EINVAL && (values != null ==> unchanged(values))
    ensures percentiles != null && values != null ==>
              && rc == 0
              && (forall i :: 0 <= i < length ==> values[i] == BatchValue(h.View(), percentiles[..], i))
              && (forall i :: length <= i < values.Length ==> values[i] == old(values[i]))
  {
    if percentiles == null || values == null {
      return EINVAL;
    }
    hide CountAtPercentile, BatchValue, HighestEquivalent, ValueAtIndex, Shaped;
    ghost var v, ps := h.View(), percentiles[..];
    FillCounts(h.totalCount, percentiles, values, length);
    hide *;
    FillValues(h, values, length, v, ps);
    return 0;
  }

  /** The pass over the slots. */
  method FillValues(h: Histogram, values: array<int>, length: nat, ghost v: Hist, ghost ps: seq<real>)
    requires h.WellFormed() && Consistent(h.counts[..], h.totalCount) && values != h.counts
    requires v == h.View() && length <= |ps| && length <= values.Length
    requires forall i :: 0 <= i < length ==> values[i] == CountAtPercentile(v.total, ps[i])
    modifies values
    ensures forall i :: 0 <= i < length ==> values[i] == BatchValue(v, ps, i)
    ensures forall i :: length <= i < values.Length ==> values[i] == old(values[i])
  {
    hide CountAtPercentile, BatchValue, HighestEquivalent, ValueAtIndex, Shaped;
    var iter := new Iter(h);
    var atPos := 0;
    var more := iter.MoveNext();
    while more && atPos < length
      invariant iter.WellFormed() && iter.h == h && iter.base == v.counts && fresh(iter)
      invariant more == (iter.countsIndex < |v.counts|)
      invariant 0 <= iter.countsIndex <= |v.counts|
      invariant Filled(v, ps, values[..], length, atPos, iter.countsIndex)
      invariant forall j :: length <= j < values.Length ==> values[j] == old(values[j])
      decreases |v.counts| - iter.countsIndex
    {
      atPos := FillSlot(values, length, atPos, iter, v, ps);
      more := iter.MoveNext();
    }
    FilledAtEnd(v, ps, values[..], length, atPos, iter.countsIndex);
  }

  method FillCounts(total: int, percentiles: array<real>, values: array<int>, length: nat)
    requires length <= percentiles.Length && length <= values.Length
    modifies values
    ensures forall j :: 0 <= j < length ==> values[j] == CountAtPercentile(total, percentiles[j])
    ensures forall j :: length <= j < values.Length ==> values[j] == old(values[j])
  {
    hide CountAtPercentile;
    for i := 0 to length
      invariant forall j :: 0 <= j < i ==> values[j] == CountAtPercentile(total, percentiles[j])
      invariant forall j :: length <= j < values.Length ==> values[j] == old(values[j])
    {
      values[i] := CountAtPercentile(total, percentiles[i]);
    }
  }

  /** Before slot n: the first atPos entries are answers, the others still
      counts; the counts before atPos have been reached, the one at atPos not. */
  ghost predicate Filled(v: Hist, ps: seq<real>, values: seq<int>, length: nat, atPos: nat, n: nat)
    requires Valid(v)
  {
    && atPos <= length <= |ps| && length <= |values| && n <= |v.counts|
    && (forall i :: 0 <= i < atPos ==> values[i] == BatchValue(v, ps, i))
    && (forall i :: atPos <= i < length ==> values[i] == CountAtPercentile(v.total, ps[i]))
    && (atPos > 0 ==> MaxCount(v.total, ps, atPos - 1) <= PrefixSum(v.counts, n))
    && (atPos < length ==> PrefixSum(v.counts, n) < MaxCount(v.total, ps, atPos))
  }

  /** An entry answered at slot n: the running count passes its largest count
      there and not before. */
  lemma EntryAnswered(v: Hist, ps: seq<real>, i: nat, n: nat)
    requires Valid(v) && i < |ps| && n < |v.counts| && forall j :: 0 <= j < |v.counts| ==> v.counts[j] >= 0
    requires PrefixSum(v.counts, n) < MaxCount(v.total, ps, i) <= PrefixSum(v.counts, n + 1)
    ensures BatchValue(v, ps, i) == HighestEquivalent(v.cfg, ValueAtIndex(v.cfg, n))
  {
    hide Shaped, ValueAtIndex, HighestEquivalent, PrefixSum, MaxCount, CountAtPercentile;
    var k := MaxCount(v.total, ps, i);
    forall m | 0 <= m <= n ensures PrefixSum(v.counts, m) < k {
      PrefixMonotone(v.counts, m, n);
    }
    FirstReachingIs(v.counts, k, n);
  }

  lemma FilledAtEnd(v: Hist, ps: seq<real>, values: seq<int>, length: nat, atPos: nat, n: nat)
    requires Valid(v) && Filled(v, ps, values, length, atPos, n) && Consistent(v.counts, v.total)
    requires n == |v.counts| || atPos == length
    ensures forall i :: 0 <= i < length ==> values[i] == BatchValue(v, ps, i)
  {
    hide Shaped, ValueAtIndex, HighestEquivalent, PrefixSum, CountAtPercentile;
    forall i | atPos <= i < length ensures values[i] == BatchValue(v, ps, i) {
      MaxCountGrows(v.total, ps, atPos, i);
      var k := MaxCount(v.total, ps, i);
      forall m | 0 <= m <= |v.counts| ensures PrefixSum(v.counts, m) < k {
        PrefixMonotone(v.counts, m, |v.counts|);
      }
      NeverReached(v.counts, k);
    }
  }

  lemma NeverReached(counts: seq<int>, k: int)
    requires forall m :: 0 <= m <= |counts| ==> PrefixSum(counts, m) < k
    ensures FirstReaching(counts, k, 0) == -1
  {
    hide PrefixSum;
    var last := FirstReaching(counts, k, 0) + 1;
    assert PrefixSum(counts, last) < k;
  }

  lemma {:induction false} MaxCountGrows(total: int, ps: seq<real>, i: nat, j: nat)
    requires i <= j < |ps|
    ensures MaxCount(total, ps, i) <= MaxCount(total, ps, j)
    decreases j
  {
    hide CountAtPercentile;
    if i < j { MaxCountGrows(total, ps, i, j - 1); }
  }

  /** The inner loop: every pending entry whose count the current slot reaches
      gets the slot's highest value. */
  method FillSlot(values: array<int>, length: nat, start: nat, iter: Iter, ghost v: Hist, ghost ps: seq<real>)
      returns (atPos: nat)
    requires iter.WellFormed() && values != iter.h.counts && 0 <= iter.countsIndex < |iter.base|
    requires Valid(v) && iter.base == v.counts && iter.h.cfg == v.cfg
    requires Filled(v, ps, values[..], length, start, iter.countsIndex)
    modifies values
    ensures start <= atPos && Filled(v, ps, values[..], length, atPos, iter.countsIndex + 1)
    ensures forall j :: length <= j < values.Length ==> values[j] == old(values[j])
  {
    hide Shaped, ValueAtIndex, HighestEquivalent, CountAtPercentile, BatchValue;
    atPos := start;
    ghost var n := iter.countsIndex;
    var total := iter.cumulativeCount;
    while atPos < length && total >= values[atPos]
      invariant start <= atPos <= length
      invariant forall i :: 0 <= i < atPos ==> values[i] == BatchValue(v, ps, i)
      invariant forall i :: atPos <= i < length ==> values[i] == CountAtPercentile(v.total, ps[i])
      invariant atPos > 0 ==> MaxCount(v.total, ps, atPos - 1) <= PrefixSum(v.counts, n + 1)
      invariant atPos < length ==> PrefixSum(v.counts, n) < MaxCount(v.total, ps, atPos)
      invariant forall j :: length <= j < values.Length ==> values[j] == old(values[j])
    {
      if atPos + 1 < length { MaxCountGrows(v.total, ps, atPos, atPos + 1); }
      EntryAnswered(v, ps, atPos, n);
      values[atPos] := HighestEquivalent(iter.h.cfg, iter.value);
      atPos := atPos + 1;
    }
  }

  lemma RefusedIsNothing(h: Hist, r: Rec)
    requires Valid(h) && !Accepts(h.cfg, r.value)
    ensures Record(h, r) == h
  {
  }
}
