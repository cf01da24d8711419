/** Batches of records: corrected recording and merging one histogram into another. */
module Merging {
  import opened Buckets
  import opened HistogramModel
  import opened OrderStatistics

  /** The records made one after the other. */
  function RecordAll(h: Hist, recs: seq<Rec>): (h': Hist)
    requires Valid(h)
    ensures Valid(h') && h'.cfg == h.cfg
    decreases |recs|
  {
    if recs == [] then h else RecordAll(Record(h, recs[0]), recs[1..])
  }

  lemma {:induction false} RecordAllSnoc(h: Hist, recs: seq<Rec>, r: Rec)
    requires Valid(h)
    ensures RecordAll(h, recs + [r]) == Record(RecordAll(h, recs), r)
    decreases |recs|
  {
    hide Record;
    if recs == [] {
      assert (recs + [r])[1..] == [];
    } else {
      assert (recs + [r])[1..] == recs[1..] + [r];
      RecordAllSnoc(Record(h, recs[0]), recs[1..], r);
    }
  }

  lemma {:induction false} RecordAllReplays(c: Config, log: seq<Rec>, recs: seq<Rec>)
    requires Shaped(c)
    ensures RecordAll(Replay(c, log), recs) == Replay(c, log + recs)
    decreases |recs|
  {
    hide Record, Shaped, Replay;
    if recs == [] {
      assert log + recs == log;
    } else {
      ReplaySnoc(c, log, recs[0]);
      RecordAllReplays(c, log + [recs[0]], recs[1..]);
      assert log + [recs[0]] + recs[1..] == log + recs;
    }
  }

  /** Total count of the records of a batch. */
  function BatchCount(recs: seq<Rec>): int {
    if recs == [] then 0 else BatchCount(recs[..|recs| - 1]) + recs[|recs| - 1].count
  }

  /** Total count of the records of a batch that are refused. */
  function Dropped(c: Config, recs: seq<Rec>): int
    requires Shaped(c)
  {
    if recs == [] then 0
    else
      var r := recs[|recs| - 1];
      Dropped(c, recs[..|recs| - 1]) + if Accepts(c, r.value) then 0 else r.count
  }

  /** Nothing is lost or invented: what a batch adds and what it drops make up
      the batch. */
  lemma {:induction false} BatchConservation(h: Hist, recs: seq<Rec>)
    requires Valid(h)
    ensures RecordAll(h, recs).total + Dropped(h.cfg, recs) == h.total + BatchCount(recs)
    decreases |recs|
  {
    hide CountsIndexFor, Shaped;
    if recs != [] {
      var n := |recs| - 1;
      BatchConservation(h, recs[..n]);
      RecordAllSnoc(h, recs[..n], recs[n]);
      assert recs == recs[..n] + [recs[n]];
    }
  }

  // ----- corrected recording, hdr_histogram.c:545-569 -----

  /** The values filled in below a long one: m, m - e, ... down to the last >= e. */
  function Backfill(m: int, count: int, e: int): seq<Rec>
    requires e > 0
    decreases m
  {
    if m >= e then [Rec(m, count, 0)] + Backfill(m - e, count, e) else []
  }

  function Corrected(value: int, count: int, e: int): seq<Rec> {
    if e <= 0 || value <= e then [Rec(value, count, 0)]
    else [Rec(value, count, 0)] + Backfill(value - e, count, e)
  }

  lemma {:induction false} BackfillShape(m: int, count: int, e: int)
    requires e > 0 && m >= 0
    ensures |Backfill(m, count, e)| * e <= m < |Backfill(m, count, e)| * e + e
    ensures forall k :: 0 <= k < |Backfill(m, count, e)| ==> Backfill(m, count, e)[k] == Rec(m - k * e, count, 0)
    decreases m
  {
    if m >= e {
      BackfillShape(m - e, count, e);
      var n := |Backfill(m - e, count, e)|;
      assert |Backfill(m, count, e)| == n + 1 && (n + 1) * e == n * e + e;
      forall k | 0 <= k < n + 1 ensures Backfill(m, count, e)[k] == Rec(m - k * e, count, 0) {
        if k > 0 {
          assert Backfill(m, count, e)[k] == Backfill(m - e, count, e)[k - 1];
          assert (k - 1) * e == k * e - e;
        }
      }
    }
  }

  /** For an expected interval e > 0 and a value above it, the batch is one
      record at each of value, value - e, ..., the last >= e: floor(value / e)
      of them. */
  lemma CorrectedShape(value: int, count: int, e: int)
    requires e > 0 && value > e
    ensures |Corrected(value, count, e)| == value / e
    ensures forall k :: 0 <= k < value / e ==> Corrected(value, count, e)[k] == Rec(value - k * e, count, 0)
    ensures value - (value / e - 1) * e >= e
  {
    var b := Backfill(value - e, count, e);
    BackfillShape(value - e, count, e);
    var n := |b| + 1;
    assert n * e == |b| * e + e;
    QuotientIs(value, e, n);
    forall k | 0 <= k < n ensures Corrected(value, count, e)[k] == Rec(value - k * e, count, 0) {
      if k > 0 {
        assert Corrected(value, count, e)[k] == b[k - 1];
        assert (k - 1) * e == k * e - e;
      }
    }
    assert (n - 1) * e == n * e - e;
  }

  lemma MulMono(a: int, b: int, d: int)
    requires a <= b && d >= 0
    ensures a * d <= b * d
  {
    assert (b - a) * d >= 0;
  }

  lemma QuotientIs(x: int, d: int, q: int)
    requires d > 0 && q * d <= x < q * d + d
    ensures x / d == q
  {
    var k, r := x / d, x % d;
    assert x == k * d + r;
    if k < q {
      MulMono(k + 1, q, d);
    } else if q < k {
      MulMono(q + 1, k, d);
    }
  }

  /** Once the value itself is accepted no backfill is refused. */
  lemma {:induction false} BackfillAccepted(c: Config, value: nat, m: int, count: int, e: int)
    requires Shaped(c) && Accepts(c, value) && e > 0 && m <= value
    ensures Dropped(c, Backfill(m, count, e)) == 0
    ensures forall k :: 0 <= k < |Backfill(m, count, e)| ==> Accepts(c, Backfill(m, count, e)[k].value)
    decreases m
  {
    hide CountsIndexFor, Shaped, Dropped;
    if m >= e {
      BackfillAccepted(c, value, m - e, count, e);
      CountsIndexMonotone(c, m, value);
    }
    NoneDropped(c, Backfill(m, count, e));
  }

  lemma {:induction false} NoneDropped(c: Config, recs: seq<Rec>)
    requires Shaped(c) && forall k :: 0 <= k < |recs| ==> Accepts(c, recs[k].value)
    ensures Dropped(c, recs) == 0
    decreases |recs|
  {
    hide Accepts, Shaped;
    if recs != [] { NoneDropped(c, recs[..|recs| - 1]); }
  }

  lemma {:induction false} EvenBatch(recs: seq<Rec>, count: int)
    requires forall k :: 0 <= k < |recs| ==> recs[k].count == count
    ensures BatchCount(recs) == |recs| * count
    decreases |recs|
  {
    if recs != [] {
      EvenBatch(recs[..|recs| - 1], count);
      assert |recs| * count == (|recs| - 1) * count + count;
    }
  }

  /** Corrected recording adds exactly count * floor(value / e) entries. */
  lemma CorrectedTotal(h: Hist, value: nat, count: int, e: int)
    requires Valid(h) && Accepts(h.cfg, value)
    ensures RecordAll(h, Corrected(value, count, e)).total
            == h.total + if e > 0 && value > e then (value / e) * count else count
  {
    if e > 0 && value > e {
      LongTotal(h, value, count, e);
    } else {
      CorrectedOnce(h, value, count, e);
    }
  }

  /** A value at or below the expected interval, or no interval: one plain record. */
  lemma CorrectedOnce(h: Hist, value: int, count: int, e: int)
    requires Valid(h) && (e <= 0 || value <= e)
    ensures Corrected(value, count, e) == [Rec(value, count, 0)]
    ensures RecordAll(h, Corrected(value, count, e)) == Record(h, Rec(value, count, 0))
  {
    hide Record;
    assert [Rec(value, count, 0)][1..] == [];
  }

  lemma LongTotal(h: Hist, value: nat, count: int, e: int)
    requires Valid(h) && Accepts(h.cfg, value) && e > 0 && value > e
    ensures RecordAll(h, Corrected(value, count, e)).total == h.total + (value / e) * count
  {
    hide Accepts, Shaped, Corrected, RecordAll, BatchCount, Dropped;
    var recs := Corrected(value, count, e);
    CorrectedAccepted(h.cfg, value, count, e);
    CorrectedShape(value, count, e);
    EvenBatch(recs, count);
    NoneDropped(h.cfg, recs);
    BatchConservation(h, recs);
  }

  lemma CorrectedAccepted(c: Config, value: nat, count: int, e: int)
    requires Shaped(c) && Accepts(c, value) && e > 0 && value > e
    ensures forall k :: 0 <= k < |Corrected(value, count, e)| ==> Accepts(c, Corrected(value, count, e)[k].value)
  {
    hide Accepts, Shaped, Backfill;
    BackfillAccepted(c, value, value - e, count, e);
  }

  // ----- merging, hdr_histogram.c:597-615 -----

  /** One record for each non-zero slot among the first n, in slot order. */
  function SlotRecs(c: Config, counts: seq<int>, n: nat): (recs: seq<Rec>)
    requires Shaped(c) && n <= |counts|
  {
    if n == 0 then []
    else
      SlotRecs(c, counts, n - 1)
      + if counts[n - 1] != 0 then [Rec(ValueAtIndex(c, n - 1), counts[n - 1], 0)] else []
  }

  /** What a merge does: the target after recording every occupied slot of the
      source, and the count it had to drop. */
  function MergeOf(h: Hist, source: Hist, n: nat): (r: (Hist, int))
    requires Valid(h) && Valid(source) && n <= |source.counts|
    ensures Valid(r.0)
  {
    var recs := SlotRecs(source.cfg, source.counts, n);
    (RecordAll(h, recs), Dropped(h.cfg, recs))
  }

  lemma {:induction false} SlotRecsCount(c: Config, counts: seq<int>, n: nat)
    requires Shaped(c) && n <= |counts|
    ensures BatchCount(SlotRecs(c, counts, n)) == PrefixSum(counts, n)
    decreases n
  {
    hide ValueAtIndex, Shaped;
    if n > 0 {
      SlotRecsCount(c, counts, n - 1);
      if counts[n - 1] != 0 {
        var r := Rec(ValueAtIndex(c, n - 1), counts[n - 1], 0);
        assert SlotRecs(c, counts, n) == SlotRecs(c, counts, n - 1) + [r];
        assert SlotRecs(c, counts, n)[..|SlotRecs(c, counts, n - 1)|] == SlotRecs(c, counts, n - 1);
      } else {
        assert SlotRecs(c, counts, n) == SlotRecs(c, counts, n - 1);
      }
    }
  }

  /** Conservation: new total plus dropped equals old total plus source total,
      whatever the two configurations. */
  lemma MergeConservation(h: Hist, source: Hist)
    requires Valid(h) && Valid(source) && source.total == SumOf(source.counts)
    ensures var (h', dropped) := MergeOf(h, source, |source.counts|);
            h'.total + dropped == h.total + source.total
  {
    hide Shaped, SlotRecs, RecordAll, Dropped, BatchCount, PrefixSum;
    SlotRecsCount(source.cfg, source.counts, |source.counts|);
    BatchConservation(h, SlotRecs(source.cfg, source.counts, |source.counts|));
  }

  /** Same configuration: nothing is dropped and counts add slot by slot. */
  lemma {:induction false} MergeSameConfig(h: Hist, source: Hist, n: nat)
    requires Valid(h) && Valid(source) && h.cfg == source.cfg && n <= |source.counts|
    ensures var (h', dropped) := MergeOf(h, source, n);
            && dropped == 0
            && forall i :: 0 <= i < |h.counts| ==>
                 h'.counts[i] == h.counts[i] + if i < n then source.counts[i] else 0
    decreases n
  {
    hide Shaped, MergeOf;
    if n == 0 {
      MergeNothing(h, source);
    } else {
      MergeSameConfig(h, source, n - 1);
      MergeOneSlot(h, source, n);
    }
  }

  lemma MergeNothing(h: Hist, source: Hist)
    requires Valid(h) && Valid(source)
    ensures MergeOf(h, source, 0) == (h, 0)
  {
  }

  /** One slot more adds its count to the same slot. */
  lemma MergeOneSlot(h: Hist, source: Hist, n: nat)
    requires Valid(h) && Valid(source) && h.cfg == source.cfg && 0 < n <= |source.counts|
    ensures var (h0, d0) := MergeOf(h, source, n - 1);
            var (h1, d1) := MergeOf(h, source, n);
            && d1 == d0 && |h0.counts| == |h.counts|
            && h1.counts == h0.counts[n - 1 := h0.counts[n - 1] + source.counts[n - 1]]
  {
    hide ValueAtIndex, Shaped, Record, Accepts, RecordAll;
    var counts := source.counts;
    var recs0, recs := SlotRecs(h.cfg, counts, n - 1), SlotRecs(h.cfg, counts, n);
    assert Valid(RecordAll(h, recs0)) && RecordAll(h, recs0).cfg == h.cfg;
    if counts[n - 1] != 0 {
      var r := Rec(ValueAtIndex(h.cfg, n - 1), counts[n - 1], 0);
      assert recs == recs0 + [r] && recs[..|recs0|] == recs0;
      RecordAllSnoc(h, recs0, r);
      RecordOwnSlot(RecordAll(h, recs0), n - 1, counts[n - 1]);
    } else {
      assert recs == recs0;
    }
  }

  lemma RecordOwnSlot(h: Hist, i: nat, count: int)
    requires Valid(h) && i < |h.counts|
    ensures var r := Rec(ValueAtIndex(h.cfg, i), count, 0);
            Accepts(h.cfg, r.value) && Record(h, r).counts == h.counts[i := h.counts[i] + count]
  {
    hide CountsIndexFor, ValueAtIndex, Shaped;
    IndexOfValueAtIndex(h.cfg, i);
  }

  /** Percentile queries look only at the counts and the total. */
  lemma QueriesDependOnCounts(h: Hist, h': Hist, p: real)
    requires Valid(h) && Valid(h') && h.cfg == h'.cfg && h.counts == h'.counts && h.total == h'.total
    ensures ValueAtPercentile(h, p) == ValueAtPercentile(h', p)
  {
  }

  lemma {:induction false} SlotSumConcat(c: Config, a: seq<Rec>, b: seq<Rec>, i: nat)
    requires Shaped(c)
    ensures SlotSum(c, a + b, i) == SlotSum(c, a, i) + SlotSum(c, b, i)
    ensures LogTotal(c, a + b) == LogTotal(c, a) + LogTotal(c, b)
    decreases |b|
  {
    hide CountsIndexFor, Shaped;
    if b == [] {
      assert a + b == a;
    } else {
      SlotSumConcat(c, a, b[..|b| - 1], i);
      assert (a + b)[..|a + b| - 1] == a + b[..|b| - 1];
    }
  }

  /** Merging two recorded histograms of one configuration answers every
      percentile query as if all their records had been made in one histogram. */
  lemma MergeAnswersJointQueries(c: Config, a: seq<Rec>, b: seq<Rec>, p: real)
    requires Shaped(c)
    ensures ValueAtPercentile(MergeOf(Replay(c, a), Replay(c, b), c.countsLen).0, p)
            == ValueAtPercentile(Replay(c, a + b), p)
  {
    hide Shaped, MergeOf, ValueAtPercentile, Replay;
    MergeIsJoint(c, a, b);
    QueriesDependOnCounts(MergeOf(Replay(c, a), Replay(c, b), c.countsLen).0, Replay(c, a + b), p);
  }

  /** The merged counts and total are those of the joint recording. */
  lemma MergeIsJoint(c: Config, a: seq<Rec>, b: seq<Rec>)
    requires Shaped(c)
    ensures var merged, joint := MergeOf(Replay(c, a), Replay(c, b), c.countsLen).0, Replay(c, a + b);
            merged.cfg == c && merged.counts == joint.counts && merged.total == joint.total
  {
    hide CountsIndexFor, ValueAtIndex, Shaped, RecordAll, SlotRecs, Dropped, Replay, SlotSum, LogTotal,
         IsMinOf, IsMaxOf, PrefixSum;
    var h, source := Replay(c, a), Replay(c, b);
    var merged, joint := MergeOf(h, source, c.countsLen).0, Replay(c, a + b);
    ReplayDescribes(c, a);
    ReplayDescribes(c, b);
    ReplayDescribes(c, a + b);
    MergeSameConfig(h, source, c.countsLen);
    forall i | 0 <= i < c.countsLen ensures merged.counts[i] == joint.counts[i] {
      SlotSumConcat(c, a, b, i);
    }
    assert merged.counts == joint.counts;
    ReplaySum(c, b);
    MergeConservation(h, source);
    SlotSumConcat(c, a, b, 0);
  }
}
