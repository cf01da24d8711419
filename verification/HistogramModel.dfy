/** A histogram as a value, recording as a function on it, and a log of
    records as the reference the histogram is compared with. */
module HistogramModel {
  import opened Bits
  import opened Buckets

  /** One call of hdr_record_values. The caller only tells calls apart; no
      function of the histogram looks at it. */
  datatype Rec = Rec(value: int, count: int, caller: nat)

  /** The fields of struct hdr_histogram that change, with its configuration. */
  datatype Hist = Hist(cfg: Config, counts: seq<int>, total: int, minValue: int, maxValue: int)

  predicate Valid(h: Hist) {
    Shaped(h.cfg) && |h.counts| == h.cfg.countsLen
  }

  function Empty(c: Config): (h: Hist)
  {
    Hist(c, seq(c.countsLen, _ => 0), 0, INT64_MAX, 0)
  }

  predicate Accepts(c: Config, value: int)
    requires Shaped(c)
  {
    value >= 0 && CountsIndexFor(c, value) < c.countsLen
  }

  function LowerMin(minValue: int, value: int): int {
    if value < minValue && value != 0 then value else minValue
  }

  function RaiseMax(maxValue: int, value: int): int {
    if value > maxValue then value else maxValue
  }

  /** hdr_record_values, hdr_histogram.c:491-511: a refused record changes nothing. */
  function Record(h: Hist, r: Rec): (h': Hist)
    requires Valid(h)
    ensures Valid(h') && h'.cfg == h.cfg
  {
    if !Accepts(h.cfg, r.value) then h
    else
      var i := CountsIndexFor(h.cfg, r.value);
      h.(counts := h.counts[i := h.counts[i] + r.count],
         total := h.total + r.count,
         minValue := LowerMin(h.minValue, r.value),
         maxValue := RaiseMax(h.maxValue, r.value))
  }

  /** The histogram that a run of records builds from an empty one. */
  function Replay(c: Config, log: seq<Rec>): (h: Hist)
    requires Shaped(c)
    ensures Valid(h) && h.cfg == c
  {
    if log == [] then Empty(c)
    else Record(Replay(c, log[..|log| - 1]), log[|log| - 1])
  }

  lemma ReplaySnoc(c: Config, log: seq<Rec>, r: Rec)
    requires Shaped(c)
    ensures Replay(c, log + [r]) == Record(Replay(c, log), r)
  {
    assert (log + [r])[..|log|] == log;
  }

  /** Values above highest_trackable_value are accepted up to the end of the last
      bucket: the histogram for 1 to 2 with one significant figure takes 31. */
  lemma AcceptsAboveHighest(c: Config)
    requires IsConfigFor(c, 1, 2, 1)
    ensures c.highestTrackable == 2 && Accepts(c, 31)
  {
    assert Pow10(1) == 10 && Pow2(5) == 32 && Pow2(4) == 16;
    var k := c.unitMagnitude + c.halfMagnitude + c.bucketCount;
    hide Shl, CountsIndexFor, Pow2, Pow10;
    if c.halfMagnitude + 1 < 5 { Pow2Mono(c.halfMagnitude + 1, 4); }
    Pow2Mono(5, k);
    RecordableRange(c, 31);
  }

  // ----- order of records does not matter -----

  lemma RecordsCommute(h: Hist, a: Rec, b: Rec)
    requires Valid(h)
    ensures Record(Record(h, a), b) == Record(Record(h, b), a)
  {
    hide CountsIndexFor, Shaped;
    if Accepts(h.cfg, a.value) && Accepts(h.cfg, b.value) {
      var i, j := CountsIndexFor(h.cfg, a.value), CountsIndexFor(h.cfg, b.value);
      assert Record(Record(h, a), b).counts == Record(Record(h, b), a).counts;
    }
  }

  lemma {:induction false} ReplayMoveLast(c: Config, p: seq<Rec>, x: Rec, q: seq<Rec>)
    requires Shaped(c)
    ensures Replay(c, p + [x] + q) == Replay(c, p + q + [x])
    decreases |q|
  {
    hide Record, Empty, Shaped;
    if q == [] {
      assert p + [x] + q == p + q + [x];
    } else {
      var q0, y := q[..|q| - 1], q[|q| - 1];
      assert p + [x] + q == (p + [x] + q0) + [y];
      assert p + q == (p + q0) + [y];
      ReplayMoveLast(c, p, x, q0);
      ReplaySnoc(c, p + [x] + q0, y);
      ReplaySnoc(c, p + q0, x);
      ReplaySnoc(c, p + q0, y);
      ReplaySnoc(c, p + q, x);
      RecordsCommute(Replay(c, p + q0), x, y);
    }
  }

  /** Splits a permutation of a around an occurrence of a's last element. */
  lemma WithoutLast<T>(a: seq<T>, b: seq<T>) returns (p: seq<T>, q: seq<T>)
    requires multiset(a) == multiset(b) && a != []
    ensures b == p + [a[|a| - 1]] + q
    ensures multiset(a[..|a| - 1]) == multiset(p + q)
  {
    var a0, x := a[..|a| - 1], a[|a| - 1];
    assert a == a0 + [x];
    assert x in multiset(b);
    var k :| 0 <= k < |b| && b[k] == x;
    p, q := b[..k], b[k + 1..];
    assert b == p + [x] + q;
    assert multiset(a) == multiset(a0) + multiset{x};
    assert multiset(b) == multiset(p) + multiset{x} + multiset(q);
    assert multiset(p + q) == multiset(p) + multiset(q);
    MultisetCancel(multiset(a0), multiset(p) + multiset(q), multiset{x});
  }

  lemma MultisetCancel<T>(a: multiset<T>, b: multiset<T>, x: multiset<T>)
    requires a + x == b + x
    ensures a == b
  {
    forall e: T ensures a[e] == b[e] {
      assert (a + x)[e] == (b + x)[e];
    }
  }

  /** A histogram depends only on which records were made, not on their order. */
  lemma {:induction false} ReplayPermutation(c: Config, a: seq<Rec>, b: seq<Rec>)
    requires Shaped(c) && multiset(a) == multiset(b)
    ensures Replay(c, a) == Replay(c, b)
    decreases |a|
  {
    hide Record, Empty, Shaped, Replay;
    if a == [] {
      assert |multiset(b)| == 0;
    } else {
      var a0, x := a[..|a| - 1], a[|a| - 1];
      assert a == a0 + [x];
      var p, q := WithoutLast(a, b);
      ReplayPermutation(c, a0, p + q);
      ReplayMoveLast(c, p, x, q);
      ReplaySnoc(c, a0, x);
      ReplaySnoc(c, p + q, x);
    }
  }

  // ----- a histogram in terms of its log, field by field -----

  /** Total count a log puts in slot i. */
  function SlotSum(c: Config, log: seq<Rec>, i: nat): int
    requires Shaped(c)
  {
    if log == [] then 0
    else
      var r := log[|log| - 1];
      SlotSum(c, log[..|log| - 1], i)
      + if Accepts(c, r.value) && CountsIndexFor(c, r.value) == i then r.count else 0
  }

  function LogTotal(c: Config, log: seq<Rec>): int
    requires Shaped(c)
  {
    if log == [] then 0
    else
      var r := log[|log| - 1];
      LogTotal(c, log[..|log| - 1]) + if Accepts(c, r.value) then r.count else 0
  }

  /** m is the least accepted non-zero value of the log, INT64_MAX if none is smaller. */
  ghost predicate IsMinOf(c: Config, log: seq<Rec>, m: int)
    requires Shaped(c)
  {
    && m <= INT64_MAX
    && (forall k :: 0 <= k < |log| && Accepts(c, log[k].value) && log[k].value != 0 ==> m <= log[k].value)
    && (m == INT64_MAX || exists k :: 0 <= k < |log| && Accepts(c, log[k].value) && log[k].value == m && m != 0)
  }

  /** m is the greatest accepted value of the log, 0 if there is none. */
  ghost predicate IsMaxOf(c: Config, log: seq<Rec>, m: int)
    requires Shaped(c)
  {
    && 0 <= m
    && (forall k :: 0 <= k < |log| && Accepts(c, log[k].value) ==> log[k].value <= m)
    && (m == 0 || exists k :: 0 <= k < |log| && Accepts(c, log[k].value) && log[k].value == m)
  }

  ghost predicate Describes(h: Hist, log: seq<Rec>) {
    && Valid(h)
    && (forall i :: 0 <= i < h.cfg.countsLen ==> h.counts[i] == SlotSum(h.cfg, log, i))
    && h.total == LogTotal(h.cfg, log)
    && IsMinOf(h.cfg, log, h.minValue)
    && IsMaxOf(h.cfg, log, h.maxValue)
  }

  /** A log describes at most one histogram of a given configuration. */
  lemma DescribesUnique(h: Hist, h': Hist, log: seq<Rec>)
    requires Describes(h, log) && Describes(h', log) && h.cfg == h'.cfg
    ensures h == h'
  {
    hide Accepts, Shaped, SlotSum, LogTotal;
    assert h.counts == h'.counts;
    MinMaxUnique(h.cfg, log, h.minValue, h'.minValue, h.maxValue, h'.maxValue);
  }

  lemma MinMaxUnique(c: Config, log: seq<Rec>, m: int, m': int, x: int, x': int)
    requires Shaped(c)
    requires IsMinOf(c, log, m) && IsMinOf(c, log, m') && IsMaxOf(c, log, x) && IsMaxOf(c, log, x')
    ensures m == m' && x == x'
  {
    hide Accepts, Shaped;
  }

  lemma MinSnoc(c: Config, log: seq<Rec>, r: Rec, m: int)
    requires Shaped(c) && IsMinOf(c, log, m)
    ensures IsMinOf(c, log + [r], if Accepts(c, r.value) then LowerMin(m, r.value) else m)
  {
    hide Accepts, Shaped;
    var log', m' := log + [r], if Accepts(c, r.value) then LowerMin(m, r.value) else m;
    assert log'[|log|] == r;
    if m' != INT64_MAX && m' == m {
      var k :| 0 <= k < |log| && Accepts(c, log[k].value) && log[k].value == m && m != 0;
      assert log'[k] == log[k];
    }
  }

  lemma MaxSnoc(c: Config, log: seq<Rec>, r: Rec, m: int)
    requires Shaped(c) && IsMaxOf(c, log, m)
    ensures IsMaxOf(c, log + [r], if Accepts(c, r.value) then RaiseMax(m, r.value) else m)
  {
    hide Accepts, Shaped;
    var log', m' := log + [r], if Accepts(c, r.value) then RaiseMax(m, r.value) else m;
    assert log'[|log|] == r;
    if m' != 0 && m' == m {
      var k :| 0 <= k < |log| && Accepts(c, log[k].value) && log[k].value == m;
      assert log'[k] == log[k];
    }
  }

  /** Recording keeps the histogram described by the log it extends. */
  lemma RecordDescribes(h: Hist, log: seq<Rec>, r: Rec)
    requires Describes(h, log)
    ensures Describes(Record(h, r), log + [r])
  {
    hide CountsIndexFor, Shaped, IsMinOf, IsMaxOf;
    assert (log + [r])[..|log|] == log && (log + [r])[|log|] == r;
    MinSnoc(h.cfg, log, r, h.minValue);
    MaxSnoc(h.cfg, log, r, h.maxValue);
  }

  lemma {:induction false} ReplayDescribes(c: Config, log: seq<Rec>)
    requires Shaped(c)
    ensures Describes(Replay(c, log), log)
  {
    if log == [] {
      EmptyDescribes(c);
    } else {
      var log0 := log[..|log| - 1];
      assert log == log0 + [log[|log| - 1]];
      ReplayDescribes(c, log0);
      RecordDescribes(Replay(c, log0), log0, log[|log| - 1]);
    }
  }

  lemma EmptyDescribes(c: Config)
    requires Shaped(c)
    ensures Describes(Empty(c), [])
  {
    hide CountsIndexFor;
  }

  // ----- sums over slots -----

  /** Sum of the first n counts. */
  function PrefixSum(counts: seq<int>, n: nat): int
    requires n <= |counts|
  {
    if n == 0 then 0 else PrefixSum(counts, n - 1) + counts[n - 1]
  }

  function SumOf(counts: seq<int>): int {
    PrefixSum(counts, |counts|)
  }

  lemma {:induction false} PrefixSumUpdate(counts: seq<int>, i: nat, d: int, n: nat)
    requires i < |counts| && n <= |counts|
    ensures PrefixSum(counts[i := counts[i] + d], n) == PrefixSum(counts, n) + if i < n then d else 0
  {
    if n > 0 { PrefixSumUpdate(counts, i, d, n - 1); }
  }

  lemma {:induction false} PrefixSumZero(counts: seq<int>, n: nat)
    requires n <= |counts| && forall i :: 0 <= i < n ==> counts[i] == 0
    ensures PrefixSum(counts, n) == 0
  {
    if n > 0 { PrefixSumZero(counts, n - 1); }
  }

  lemma {:induction false} PrefixSumAgree(a: seq<int>, b: seq<int>, n: nat)
    requires n <= |a| && n <= |b| && forall i :: 0 <= i < n ==> a[i] == b[i]
    ensures PrefixSum(a, n) == PrefixSum(b, n)
  {
    if n > 0 { PrefixSumAgree(a, b, n - 1); }
  }

  lemma {:induction false} PrefixMonotone(counts: seq<int>, m: nat, n: nat)
    requires m <= n <= |counts| && forall i :: 0 <= i < |counts| ==> counts[i] >= 0
    ensures PrefixSum(counts, m) <= PrefixSum(counts, n)
    decreases n
  {
    if m < n { PrefixMonotone(counts, m, n - 1); }
  }

  /** The slots of a replayed histogram add up to its total. */
  lemma {:induction false} ReplaySum(c: Config, log: seq<Rec>)
    requires Shaped(c)
    ensures SumOf(Replay(c, log).counts) == Replay(c, log).total
  {
    hide CountsIndexFor, Shaped;
    if log == [] {
      PrefixSumZero(Empty(c).counts, c.countsLen);
    } else {
      var h, r := Replay(c, log[..|log| - 1]), log[|log| - 1];
      ReplaySum(c, log[..|log| - 1]);
      if Accepts(c, r.value) {
        PrefixSumUpdate(h.counts, CountsIndexFor(c, r.value), r.count, c.countsLen);
      }
    }
  }

  /** Counts that agree with a log slot by slot add up to the log's total. */
  lemma SlotSumsAddUp(c: Config, log: seq<Rec>, counts: seq<int>)
    requires Shaped(c) && |counts| == c.countsLen
    requires forall i :: 0 <= i < c.countsLen ==> counts[i] == SlotSum(c, log, i)
    ensures SumOf(counts) == LogTotal(c, log)
  {
    hide Shaped, SlotSum, LogTotal, Replay, IsMinOf, IsMaxOf;
    ReplayDescribes(c, log);
    ReplaySum(c, log);
    assert counts == Replay(c, log).counts;
  }
}
