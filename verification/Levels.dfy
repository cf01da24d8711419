/** The reporting levels of linear and logarithmic iteration, hdr_histogram.c:1044-1149:
    which levels there are, where the iteration stands after each, and when it stops. */
module Levels {
  import opened Buckets
  import opened HistogramModel

  /** How the reporting level of a linear or logarithmic iterator moves on. */
  datatype Stepping = Linear(units: int) | Logarithmic(base: int)

  function NextLevel(st: Stepping, level: int): int {
    match st
    case Linear(units) => level + units
    case Logarithmic(base) => level * base
  }

  /** A positive step, or an integer base of at least 2 from a positive level. */
  predicate Advances(st: Stepping, level: int) {
    match st
    case Linear(units) => level >= 0 && units > 0
    case Logarithmic(base) => level > 0 && base >= 2
  }

  lemma LevelRises(st: Stepping, level: int)
    requires Advances(st, level)
    ensures level < NextLevel(st, level) && Advances(st, NextLevel(st, level))
  {
    if st.Logarithmic? { assert level * st.base >= level * 2 by { assert level * (st.base - 2) >= 0; } }
  }

  function Power(base: int, n: nat): int {
    if n == 0 then 1 else base * Power(base, n - 1)
  }

  lemma {:induction false} PowerPositive(base: int, n: nat)
    requires base >= 2
    ensures Power(base, n) >= 1
  {
    if n > 0 {
      PowerPositive(base, n - 1);
      assert base * Power(base, n - 1) >= base;
    }
  }

  /** The n-th level: a multiple of the step on, or a power of the base up. */
  function LevelAt(st: Stepping, first: nat, n: nat): (level: nat)
    requires Advances(st, first)
  {
    match st
    case Linear(units) =>
      assert n * units >= 0;
      first + n * units
    case Logarithmic(base) =>
      PowerPositive(base, n);
      assert first * Power(base, n) >= 0;
      first * Power(base, n)
  }

  /** Moving on from the n-th level gives the next. */
  lemma NextLevelIs(st: Stepping, first: nat, n: nat)
    requires Advances(st, first)
    ensures LevelAt(st, first, 0) == first
    ensures NextLevel(st, LevelAt(st, first, n)) == LevelAt(st, first, n + 1)
  {
    match st
    case Linear(units) =>
      assert (n + 1) * units == n * units + units;
    case Logarithmic(base) =>
      var p := Power(base, n);
      assert first * p * base == first * (base * p);
  }

  /** Where the iteration stands once a level was reported: in the level's slot,
      or still before slot 0 if the level lies there. */
  function Position(c: Config, level: nat): (index: int)
    requires Shaped(c)
    ensures index >= -1
  {
    var i := CountsIndexFor(c, level);
    if i == 0 then -1 else i
  }

  /** Where it stands before the n-th level. */
  function PositionBefore(c: Config, st: Stepping, first: nat, n: nat): (index: int)
    requires Shaped(c) && Advances(st, first)
    ensures index >= -1
  {
    if n == 0 then -1 else Position(c, LevelAt(st, first, n - 1))
  }

  /** Counts of the slots up to a position. */
  function CountUpTo(counts: seq<int>, index: int): int
    requires -1 <= index
  {
    PrefixSum(counts, if index < |counts| then index + 1 else |counts|)
  }

  /** A step is due at the n-th level: something is left to count, or the level
      lies in the slot just reported. */
  predicate Due(c: Config, counts: seq<int>, st: Stepping, first: nat, n: nat)
    requires Shaped(c) && Advances(st, first)
  {
    var index := PositionBefore(c, st, first, n);
    CountUpTo(counts, index) < SumOf(counts) || CountsIndexFor(c, LevelAt(st, first, n)) <= index
  }

  /** The i-th report: its level, and the counts added up to it are those of the
      slots up to the level's own, none if that is slot 0. */
  predicate Reported(c: Config, counts: seq<int>, st: Stepping, first: nat, levels: seq<int>, added: seq<int>, i: nat)
    requires Shaped(c) && Advances(st, first) && i < |levels| <= |added|
  {
    var level := LevelAt(st, first, i);
    && levels[i] == level && CountsIndexFor(c, level) < |counts| && Due(c, counts, st, first, i)
    && PrefixSum(added, i + 1) == CountUpTo(counts, Position(c, level))
  }

  /** What a client has collected when the iterator stands at an index: a report
      for each level so far and, if it ran off the end, one step more. */
  predicate Collected(c: Config, counts: seq<int>, st: Stepping, first: nat, levels: seq<int>, added: seq<int>,
                      index: int)
    requires Shaped(c) && Advances(st, first)
  {
    var n := |levels|;
    && -1 <= index && |levels| <= |added| <= |levels| + 1
    && (forall i :: 0 <= i < |levels| ==> Reported(c, counts, st, first, levels, added, i))
    && SumOf(added) == CountUpTo(counts, index)
    && (|added| == n ==> index == PositionBefore(c, st, first, n) < |counts|)
    && (|added| > n ==> index == |counts| && RunsOff(c, counts, st, first, n))
  }

  /** A step is due at the n-th level but the level lies beyond the last slot. */
  predicate RunsOff(c: Config, counts: seq<int>, st: Stepping, first: nat, n: nat)
    requires Shaped(c) && Advances(st, first)
  {
    Due(c, counts, st, first, n) && CountsIndexFor(c, LevelAt(st, first, n)) >= |counts|
  }

  lemma CollectNothing(c: Config, counts: seq<int>, st: Stepping, first: nat)
    requires Shaped(c) && Advances(st, first) && counts != []
    ensures Collected(c, counts, st, first, [], [], -1)
  {
  }

  lemma SumSnoc(s: seq<int>, x: int)
    ensures SumOf(s + [x]) == SumOf(s) + x
  {
    PrefixSumAgree(s, s + [x], |s|);
  }

  /** A step more leaves the earlier reports standing. */
  lemma ReportsStand(c: Config, counts: seq<int>, st: Stepping, first: nat, levels: seq<int>, added: seq<int>,
                     levels': seq<int>, x: int)
    requires Shaped(c) && Advances(st, first) && |levels| == |added| && levels <= levels' && |levels'| <= |added| + 1
    requires forall i :: 0 <= i < |levels| ==> Reported(c, counts, st, first, levels, added, i)
    ensures forall i :: 0 <= i < |levels| ==> Reported(c, counts, st, first, levels', added + [x], i)
  {
    hide Shaped, CountsIndexFor, Due, Position, LevelAt, CountUpTo;
    forall i | 0 <= i < |levels| ensures Reported(c, counts, st, first, levels', added + [x], i) {
      assert Reported(c, counts, st, first, levels, added, i);
      PrefixSumAgree(added, added + [x], i + 1);
    }
  }

  lemma CollectReport(c: Config, counts: seq<int>, st: Stepping, first: nat, levels: seq<int>, added: seq<int>,
                      index: int, index': int)
    requires Shaped(c) && Advances(st, first) && Collected(c, counts, st, first, levels, added, index)
    requires |added| == |levels| && Due(c, counts, st, first, |levels|)
    requires var slot := CountsIndexFor(c, LevelAt(st, first, |levels|));
             slot < |counts| && index' == if slot == 0 && index == -1 then -1 else slot
    requires index <= index'
    ensures var x := CountUpTo(counts, index') - CountUpTo(counts, index);
            Collected(c, counts, st, first, levels + [LevelAt(st, first, |levels|)], added + [x], index')
  {
    hide Shaped, CountsIndexFor, Due, LevelAt, Reported;
    var n, x := |levels|, CountUpTo(counts, index') - CountUpTo(counts, index);
    var levels', added' := levels + [LevelAt(st, first, n)], added + [x];
    ReportsStand(c, counts, st, first, levels, added, levels', x);
    SumSnoc(added, x);
    assert index' == Position(c, LevelAt(st, first, n));
    LastReported(c, counts, st, first, levels', added', n);
  }

  lemma LastReported(c: Config, counts: seq<int>, st: Stepping, first: nat, levels: seq<int>, added: seq<int>, n: nat)
    requires Shaped(c) && Advances(st, first) && |levels| == |added| == n + 1
    requires levels[n] == LevelAt(st, first, n) && CountsIndexFor(c, LevelAt(st, first, n)) < |counts|
    requires Due(c, counts, st, first, n) && SumOf(added) == CountUpTo(counts, Position(c, LevelAt(st, first, n)))
    ensures Reported(c, counts, st, first, levels, added, n)
  {
    hide Shaped, CountsIndexFor, Due, LevelAt, CountUpTo, Position;
  }

  lemma CollectRunOff(c: Config, counts: seq<int>, st: Stepping, first: nat, levels: seq<int>, added: seq<int>,
                      index: int)
    requires Shaped(c) && Advances(st, first) && Collected(c, counts, st, first, levels, added, index)
    requires |added| == |levels| && RunsOff(c, counts, st, first, |levels|)
    ensures var x := CountUpTo(counts, |counts|) - CountUpTo(counts, index);
            Collected(c, counts, st, first, levels, added + [x], |counts|)
  {
    hide Shaped, CountsIndexFor, Due, LevelAt, Reported, CountUpTo;
    var x := CountUpTo(counts, |counts|) - CountUpTo(counts, index);
    ReportsStand(c, counts, st, first, levels, added, levels, x);
    SumSnoc(added, x);
  }

  // ----- slots and levels -----

  /** A slot begins before a level's slot exactly when it is an earlier one. */
  lemma SlotBefore(c: Config, i: nat, level: nat)
    requires Shaped(c)
    ensures ValueAtIndex(c, i) < LowestEquivalent(c, level) <==> i < CountsIndexFor(c, level)
    ensures LowestEquivalent(c, level) < ValueAtIndex(c, i) <==> CountsIndexFor(c, level) < i
    ensures LowestEquivalent(c, level) == 0 <==> CountsIndexFor(c, level) == 0
  {
    hide *;
    var j := CountsIndexFor(c, level);
    ValueAtIndexOfValue(c, level);
    FirstSlotIsZero(c);
    if i < j { ValueAtIndexStrict(c, i, j); } else if j < i { ValueAtIndexStrict(c, j, i); }
    if 0 < j { ValueAtIndexStrict(c, 0, j); }
  }

  /** A level whose slot begins at or below a value lies below the end of the
      value's slot. */
  lemma LevelInsideSlot(c: Config, level: nat, value: nat)
    requires Shaped(c) && LowestEquivalent(c, level) <= value
    ensures level < NextNonEquivalent(c, value)
  {
    hide *;
    InOwnRange(c, level);
    InOwnRange(c, value);
    var i, j := CountsIndexFor(c, level), CountsIndexFor(c, value);
    ValueAtIndexOfValue(c, level);
    ValueAtIndexOfValue(c, value);
    NextOfLowest(c, value);
    SlotTiling(c, level, i);
    SlotTiling(c, value, j);
    SlotsMeet(c, j);
    if i < j {
      ValueAtIndexStrict(c, i + 1, j + 1);
    } else if j + 1 < i {
      ValueAtIndexStrict(c, j + 1, i);
    }
  }
}
