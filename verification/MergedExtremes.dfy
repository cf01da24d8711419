/** hdr_max and hdr_min after a merge. hdr_add records the lowest value of each
    occupied slot of its source, so the kept extremes need not be those of a joint
    recording; here is exactly when they are. */
module MergedExtremes {
  import opened Bits
  import opened Buckets
  import opened HistogramModel
  import opened OrderStatistics
  import opened Counters
  import opened Merging

  /** The records a merge of b's histogram makes. */
  function Merged(c: Config, b: seq<Rec>): seq<Rec>
    requires Shaped(c)
  {
    SlotRecs(c, Replay(c, b).counts, c.countsLen)
  }

  function MergedHist(c: Config, a: seq<Rec>, b: seq<Rec>): (h: Hist)
    requires Shaped(c)
    ensures Valid(h)
  {
    MergeOf(Replay(c, a), Replay(c, b), c.countsLen).0
  }

  /** A record of a merge comes from an occupied slot. */
  lemma {:induction false} RecFromSlot(c: Config, counts: seq<int>, n: nat, k: nat) returns (i: nat)
    requires Shaped(c) && n <= |counts| && k < |SlotRecs(c, counts, n)|
    ensures i < n && counts[i] != 0 && SlotRecs(c, counts, n)[k] == Rec(ValueAtIndex(c, i), counts[i], 0)
    decreases n
  {
    hide ValueAtIndex, Shaped;
    if k < |SlotRecs(c, counts, n - 1)| {
      i := RecFromSlot(c, counts, n - 1, k);
    } else {
      i := n - 1;
    }
  }

  /** An occupied slot gives a record. */
  lemma {:induction false} RecOfSlot(c: Config, counts: seq<int>, n: nat, i: nat) returns (k: nat)
    requires Shaped(c) && i < n <= |counts| && counts[i] != 0
    ensures k < |SlotRecs(c, counts, n)| && SlotRecs(c, counts, n)[k] == Rec(ValueAtIndex(c, i), counts[i], 0)
    decreases n
  {
    hide ValueAtIndex, Shaped;
    if i < n - 1 {
      k := RecOfSlot(c, counts, n - 1, i);
    } else {
      k := |SlotRecs(c, counts, n - 1)|;
    }
  }

  /** A record of the merge stands for a recorded value of its slot. */
  lemma MergedRecord(c: Config, b: seq<Rec>, k: nat) returns (j: nat)
    requires Shaped(c) && PositiveCounts(b) && k < |Merged(c, b)|
    ensures var r := Merged(c, b)[k];
            && r.count > 0 && Accepts(c, r.value)
            && j < |b| && Accepts(c, b[j].value) && r.value == LowestEquivalent(c, b[j].value)
  {
    hide CountsIndexFor, Shaped, Replay, PositiveCounts, SlotSum, LogTotal, IsMinOf, IsMaxOf, SlotRecs, ValueAtIndex,
         LowestEquivalent;
    var counts := Replay(c, b).counts;
    var i := RecFromSlot(c, counts, c.countsLen, k);
    ReplayDescribes(c, b);
    SlotPositive(c, b, i);
    j :| 0 <= j < |b| && Accepts(c, b[j].value) && CountsIndexFor(c, b[j].value) == i;
    ValueAtIndexOfValue(c, b[j].value);
    IndexOfValueAtIndex(c, i);
  }

  /** A recorded value has a record of the merge that stands for it. */
  lemma RecordMerged(c: Config, b: seq<Rec>, j: nat) returns (k: nat)
    requires Shaped(c) && PositiveCounts(b) && j < |b| && Accepts(c, b[j].value)
    ensures k < |Merged(c, b)| && Merged(c, b)[k].value == LowestEquivalent(c, b[j].value)
    ensures Accepts(c, Merged(c, b)[k].value)
  {
    hide CountsIndexFor, Shaped, Replay, PositiveCounts, SlotSum, LogTotal, IsMinOf, IsMaxOf, SlotRecs, ValueAtIndex,
         LowestEquivalent;
    var counts, i := Replay(c, b).counts, CountsIndexFor(c, b[j].value);
    ReplayDescribes(c, b);
    SlotPositive(c, b, i);
    k := RecOfSlot(c, counts, c.countsLen, i);
    ValueAtIndexOfValue(c, b[j].value);
    IndexOfValueAtIndex(c, i);
  }

  /** Every accepted value is below one unit. */
  predicate WithinUnit(c: Config, log: seq<Rec>)
    requires Shaped(c)
  {
    forall k :: 0 <= k < |log| && Accepts(c, log[k].value) ==> log[k].value < Pow2(c.unitMagnitude)
  }

  lemma LowestIsZero(c: Config, v: nat)
    requires Shaped(c)
    ensures LowestEquivalent(c, v) == 0 <==> v < Pow2(c.unitMagnitude)
  {
    hide Shaped, CountsIndexFor, ValueAtIndex, LowestEquivalent, NextNonEquivalent, Pow2;
    FirstSlotIsZero(c);
    SlotsMeet(c, 0);
    HighestOfZero(c);
    SlotTiling(c, v, 0);
    SlotZeroValue(c);
    EquivalentIffSameSlot(c, v, 0);
  }

  /** What the records of a merge say about the recorded values. */
  lemma MergedFacts(c: Config, b: seq<Rec>)
    requires Shaped(c) && PositiveCounts(b)
    ensures PositiveCounts(Merged(c, b))
    ensures SomeAccepted(c, Merged(c, b)) <==> SomeAccepted(c, b)
    ensures AllAccepted(c, Merged(c, b), 0) <==> WithinUnit(c, b)
  {
    hide Shaped, Accepts, Merged, LowestEquivalent, Pow2;
    var recs := Merged(c, b);
    forall k | 0 <= k < |recs|
      ensures recs[k].count > 0
      ensures Accepts(c, recs[k].value) && SomeAccepted(c, b)
      ensures WithinUnit(c, b) ==> recs[k].value == 0
    {
      var j := MergedRecord(c, b, k);
      assert b[j].value >= 0 by { AcceptsNatural(c, b[j].value); }
      LowestIsZero(c, b[j].value);
    }
    forall j | 0 <= j < |b| && Accepts(c, b[j].value)
      ensures SomeAccepted(c, recs)
      ensures AllAccepted(c, recs, 0) ==> b[j].value < Pow2(c.unitMagnitude)
    {
      var k := RecordMerged(c, b, j);
      assert b[j].value >= 0 by { AcceptsNatural(c, b[j].value); }
      LowestIsZero(c, b[j].value);
    }
  }

  lemma AcceptsNatural(c: Config, v: int)
    requires Shaped(c) && Accepts(c, v)
    ensures v >= 0
  {
  }

  lemma JoinFacts(c: Config, a: seq<Rec>, b: seq<Rec>, x: int)
    requires Shaped(c)
    ensures SomeAccepted(c, a + b) <==> SomeAccepted(c, a) || SomeAccepted(c, b)
    ensures AllAccepted(c, a + b, x) <==> AllAccepted(c, a, x) && AllAccepted(c, b, x)
    ensures PositiveCounts(a) && PositiveCounts(b) ==> PositiveCounts(a + b)
  {
    hide Shaped, Accepts;
    forall k | 0 <= k < |a| ensures (a + b)[k] == a[k] {}
    forall k | 0 <= k < |b| ensures (a + b)[|a| + k] == b[k] {}
    forall k | 0 <= k < |a + b| ensures (a + b)[k] == if k < |a| then a[k] else b[k - |a|] {}
  }

  /** The merged histogram is a recording of a's records and the merge's. */
  lemma MergedIsRecorded(c: Config, a: seq<Rec>, b: seq<Rec>)
    requires Shaped(c)
    ensures MergedHist(c, a, b) == Replay(c, a + Merged(c, b))
  {
    hide Shaped, Replay, SlotRecs, RecordAll, Dropped;
    RecordAllReplays(c, a, Merged(c, b));
  }

  /** What is recomputed from equal counts is equal. */
  lemma RecomputedAlike(h: Hist, h': Hist)
    requires Valid(h) && Valid(h') && h.cfg == h'.cfg && h.counts == h'.counts
    ensures Recompute(h).maxValue == Recompute(h').maxValue && Recompute(h).minValue == Recompute(h').minValue
    ensures Recompute(h).counts == Recompute(h').counts == h.counts && Recompute(h).cfg == Recompute(h').cfg == h.cfg
    ensures Valid(Recompute(h)) && Valid(Recompute(h'))
  {
    hide Shaped, LastPositive, FirstPositive, PositiveSum, HighestEquivalent, ValueAtIndex;
  }

  lemma MaxOfZeros(c: Config, log: seq<Rec>)
    requires Shaped(c) && AllAccepted(c, log, 0)
    ensures Replay(c, log).maxValue == 0
  {
    hide Shaped, Accepts, Replay, SlotSum, LogTotal, IsMinOf;
    ReplayDescribes(c, log);
  }

  /** hdr_max of a merge is that of the joint recording unless the target holds at
      most zeros and the source something else below one unit, and nothing more. */
  lemma MergedMaxIff(c: Config, a: seq<Rec>, b: seq<Rec>)
    requires Shaped(c) && PositiveCounts(a) && PositiveCounts(b)
    ensures MergedHist(c, a, b).maxValue >= 0 && Replay(c, a + b).maxValue >= 0
    ensures Max(MergedHist(c, a, b)) == Max(Replay(c, a + b))
            <==> !(AllAccepted(c, a, 0) && WithinUnit(c, b) && !AllAccepted(c, b, 0))
  {
    hide Shaped, Replay, Recompute, MergedHist, Merged, SomeAccepted, AllAccepted, WithinUnit, HighestEquivalent;
    var recs := Merged(c, b);
    var merged, joint := MergedHist(c, a, b), Replay(c, a + b);
    MergedFacts(c, b);
    JoinFacts(c, a, recs, 0);
    JoinFacts(c, a, b, 0);
    MergedIsRecorded(c, a, b);
    MaxAgreesIff(c, a + recs);
    MaxAgreesIff(c, a + b);
    JointRecomputed(c, a, b);
    assert Max(Recompute(merged)) == Max(Recompute(joint));
    if AllAccepted(c, a + recs, 0) { MaxOfZeros(c, a + recs); }
    if AllAccepted(c, a + b, 0) {
      MaxOfZeros(c, a + b);
      ZerosWithinUnit(c, b);
    } else if WithinUnit(c, b) && !AllAccepted(c, b, 0) {
      NonZeroWithinUnit(c, b);
    }
  }

  lemma JointRecomputed(c: Config, a: seq<Rec>, b: seq<Rec>)
    requires Shaped(c)
    ensures MergedHist(c, a, b).cfg == c && MergedHist(c, a, b).counts == Replay(c, a + b).counts
    ensures var r, r' := Recompute(MergedHist(c, a, b)), Recompute(Replay(c, a + b));
            && r.maxValue == r'.maxValue && r.minValue == r'.minValue && r.counts == r'.counts && r.cfg == r'.cfg == c
            && Valid(r) && Valid(r')
  {
    hide Shaped, Replay, Recompute, MergeOf;
    MergeIsJoint(c, a, b);
    RecomputedAlike(MergedHist(c, a, b), Replay(c, a + b));
  }

  lemma ZerosWithinUnit(c: Config, log: seq<Rec>)
    requires Shaped(c) && AllAccepted(c, log, 0)
    ensures WithinUnit(c, log)
  {
    hide Shaped, Accepts;
  }

  /** A value other than 0 below one unit takes a unit of more than 1. */
  lemma NonZeroWithinUnit(c: Config, log: seq<Rec>)
    requires Shaped(c) && WithinUnit(c, log) && !AllAccepted(c, log, 0)
    ensures c.unitMagnitude > 0 && SomeAccepted(c, log)
  {
    var k :| 0 <= k < |log| && Accepts(c, log[k].value) && log[k].value != 0;
    AcceptsNatural(c, log[k].value);
    hide Shaped, Accepts;
    assert Pow2(0) == 1;
  }

  // ----- the minimum -----

  lemma MergedNeverLargest(c: Config, b: seq<Rec>)
    requires Shaped(c) && c.unitMagnitude + c.halfMagnitude <= 61 && PositiveCounts(b)
    requires forall k :: 0 <= k < |b| ==> b[k].value <= INT64_MAX
    ensures forall k :: 0 <= k < |Merged(c, b)| ==> Merged(c, b)[k].value < INT64_MAX
  {
    hide Shaped, Accepts, Merged, LowestEquivalent, PositiveCounts;
    MaxIsNotLowest(c);
    forall k | 0 <= k < |Merged(c, b)| ensures Merged(c, b)[k].value < INT64_MAX {
      var j := MergedRecord(c, b, k);
      AcceptsNatural(c, b[j].value);
      LowestIsSmaller(c, b[j].value);
    }
  }

  lemma MinOfLargest(c: Config, log: seq<Rec>)
    requires Shaped(c) && AllAccepted(c, log, INT64_MAX)
    ensures Replay(c, log).minValue == INT64_MAX
  {
    hide Shaped, Accepts, Replay, SlotSum, LogTotal, IsMaxOf;
    ReplayDescribes(c, log);
  }

  lemma AllLargestMerged(c: Config, b: seq<Rec>)
    requires Shaped(c) && PositiveCounts(b)
    requires forall k :: 0 <= k < |Merged(c, b)| ==> Merged(c, b)[k].value < INT64_MAX
    ensures AllAccepted(c, Merged(c, b), INT64_MAX) <==> !SomeAccepted(c, b)
    ensures !SomeAccepted(c, b) ==> AllAccepted(c, b, INT64_MAX)
  {
    hide Shaped, Accepts, Merged;
    MergedFacts(c, b);
  }

  lemma JoinBounded(a: seq<Rec>, b: seq<Rec>)
    requires forall k :: 0 <= k < |a| ==> a[k].value <= INT64_MAX
    requires forall k :: 0 <= k < |b| ==> b[k].value <= INT64_MAX
    ensures forall k :: 0 <= k < |a + b| ==> (a + b)[k].value <= INT64_MAX
  {
  }

  /** hdr_min of a merge is that of the joint recording unless the source holds
      something and neither holds anything but INT64_MAX. */
  lemma MergedMinIff(c: Config, a: seq<Rec>, b: seq<Rec>)
    requires Shaped(c) && c.unitMagnitude + c.halfMagnitude <= 61 && PositiveCounts(a) && PositiveCounts(b)
    requires forall k :: 0 <= k < |a| ==> a[k].value <= INT64_MAX
    requires forall k :: 0 <= k < |b| ==> b[k].value <= INT64_MAX
    ensures var h := MergedHist(c, a, b); h.minValue >= 0 && h.counts != []
    ensures var h := Replay(c, a + b); h.minValue >= 0 && h.counts != []
    ensures Min(MergedHist(c, a, b)) == Min(Replay(c, a + b))
            <==> !(SomeAccepted(c, b) && AllAccepted(c, a + b, INT64_MAX))
  {
    hide Shaped, Replay, Recompute, MergedHist, Merged, SomeAccepted, AllAccepted, Min, PositiveCounts;
    var recs := Merged(c, b);
    var merged, joint := MergedHist(c, a, b), Replay(c, a + b);
    MergedNeverLargest(c, b);
    MergedFacts(c, b);
    AllLargestMerged(c, b);
    JoinFacts(c, a, recs, INT64_MAX);
    JoinFacts(c, a, b, INT64_MAX);
    JoinBounded(a, recs);
    JoinBounded(a, b);
    MergedIsRecorded(c, a, b);
    MinAgreesIff(c, a + recs);
    MinAgreesIff(c, a + b);
    JointRecomputed(c, a, b);
    MinAlike(Recompute(merged), Recompute(joint));
    if AllAccepted(c, a + recs, INT64_MAX) {
      MinOfLargest(c, a + recs);
      MinOfLargest(c, a + b);
      MinAlike(merged, joint);
    }
  }

  lemma MinAlike(h: Hist, h': Hist)
    requires Valid(h) && Valid(h') && h.cfg == h'.cfg && h.counts == h'.counts != []
    requires h.minValue == h'.minValue >= 0
    ensures Min(h) == Min(h')
  {
  }

  // ----- the two disagreements, on concrete records -----

  /** Merging a record of 1 into an empty histogram whose unit is larger. */
  lemma MergedOneDiffers(c: Config)
    requires Shaped(c) && c.unitMagnitude > 0
    ensures var merged, joint := MergedHist(c, [], [Rec(1, 1, 0)]), Replay(c, [] + [Rec(1, 1, 0)]);
            && merged.maxValue >= 0 && joint.maxValue >= 0
            && Max(merged) != Max(joint)
  {
    var b := [Rec(1, 1, 0)];
    assert Accepts(c, 1) by { OneAccepted(c); }
    hide Shaped, Replay, MergedHist, Accepts, Max;
    assert b[0].value == 1 && 1 < Pow2(c.unitMagnitude) by { Pow2Mono(0, c.unitMagnitude); }
    MergedMaxIff(c, [], b);
  }

  lemma OneAccepted(c: Config)
    requires Shaped(c) && c.unitMagnitude > 0
    ensures Accepts(c, 1)
  {
    hide Shaped, CountsIndexFor, Pow2;
    Pow2Mono(0, c.unitMagnitude + c.halfMagnitude + c.bucketCount);
    Pow2Zero();
    RecordableRange(c, 1);
  }

  /** Merging a record of INT64_MAX into an empty histogram. */
  lemma MergedLargestDiffers(c: Config)
    requires Shaped(c) && c.unitMagnitude + c.halfMagnitude <= 61 && Accepts(c, INT64_MAX)
    ensures var merged, joint := MergedHist(c, [], [Rec(INT64_MAX, 1, 0)]), Replay(c, [] + [Rec(INT64_MAX, 1, 0)]);
            && merged.minValue >= 0 && joint.minValue >= 0 && merged.counts != [] && joint.counts != []
            && Min(merged) != Min(joint)
  {
    var b := [Rec(INT64_MAX, 1, 0)];
    assert b[0].value == INT64_MAX;
    hide Shaped, Replay, MergedHist, Accepts, Min;
    MergedMinIff(c, [], b);
  }
}
