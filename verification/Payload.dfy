/** The counts payload of an encoded histogram: runs of zeros become one negative
    number, other counts stand for themselves, each ZigZag-encoded. */
module Payload {
  import opened Basics
  import opened Bits
  import opened Buckets
  import opened HistogramModel
  import opened OrderStatistics
  import opened Counters
  import opened ZigZag

  const INT32_MIN := -0x8000_0000
  const INT32_MAX := 0x7FFF_FFFF

  /** Counts the writer can be given: non-negative 64-bit words. */
  predicate Writable(counts: seq<int>) {
    forall i :: 0 <= i < |counts| ==> 0 <= counts[i] <= INT64_MAX
  }

  // ----- writing, hdr_histogram_log.c:186-216 -----

  /** Where the run of zeros from i on ends. */
  function RunEnd(counts: seq<int>, i: nat): (j: nat)
    requires i <= |counts|
    ensures i <= j <= |counts|
    ensures forall k :: i <= k < j ==> counts[k] == 0
    ensures j < |counts| ==> counts[j] != 0
    decreases |counts| - i
  {
    if i < |counts| && counts[i] == 0 then RunEnd(counts, i + 1) else i
  }

  /** The payload of counts[i..]. */
  function Encoded(counts: seq<int>, i: nat): (bytes: seq<byte>)
    requires i <= |counts| <= INT32_MAX && Writable(counts)
    ensures |bytes| <= MAX_BYTES_LEB128 * (|counts| - i)
    decreases |counts| - i
  {
    if i == |counts| then []
    else if counts[i] == 0 then
      var j := RunEnd(counts, i + 1);
      EncodeI64(-(j - i)) + Encoded(counts, j)
    else EncodeI64(counts[i]) + Encoded(counts, i + 1)
  }

  // ----- reading, hdr_histogram_log.c:295-333 -----

  /** apply_to_counts_zz from a position on: the counts and the result code. The
      buffer holds nine bytes more than the payload. */
  function Applied(counts: seq<int>, data: seq<byte>, limit: nat, dataIndex: nat,
                   countsIndex: nat): (r: (seq<int>, int))
    requires limit + MAX_BYTES_LEB128 <= |data| && countsIndex <= |counts|
    ensures |r.0| == |counts|
    ensures forall i :: 0 <= i < countsIndex ==> r.0[i] == counts[i]
    decreases |counts| - countsIndex
  {
    if dataIndex < limit && countsIndex < |counts| then
      var (value, n) := DecodeI64(data, dataIndex);
      if value < 0 then
        if value <= INT32_MIN || countsIndex - value > |counts| then (counts, HDR_TRAILING_ZEROS_INVALID)
        else Applied(counts, data, limit, dataIndex + n, countsIndex - value)
      else
        Applied(counts[countsIndex := value], data, limit, dataIndex + n, countsIndex + 1)
    else if dataIndex > limit then (counts, HDR_VALUE_TRUNCATED)
    else if dataIndex < limit then (counts, HDR_ENCODED_INPUT_TOO_LONG)
    else (counts, 0)
  }

  /** Reading back the payload of source[i..], onto counts that agree with the
      source before i and are zero from there, restores the source. */
  lemma {:induction false} AppliedEncoded(source: seq<int>, i: nat, counts: seq<int>, data: seq<byte>,
                                          limit: nat, at: nat)
    requires i <= |source| <= INT32_MAX && Writable(source) && |source| <= |counts|
    requires limit + MAX_BYTES_LEB128 <= |data| && at <= limit && data[at..limit] == Encoded(source, i)
    requires forall k :: 0 <= k < i ==> counts[k] == source[k]
    requires forall k :: i <= k < |counts| ==> counts[k] == 0
    ensures Applied(counts, data, limit, at, i) == (source + counts[|source|..], 0)
    decreases |source| - i
  {
    hide EncodeI64, DecodeI64;
    if i == |source| {
      assert counts == source + counts[|source|..];
    } else if source[i] == 0 {
      var j := RunEnd(source, i + 1);
      ReadOne(data, at, limit, -(j - i), Encoded(source, j));
      AppliedEncoded(source, j, counts, data, limit, at + |EncodeI64(-(j - i))|);
    } else {
      ReadOne(data, at, limit, source[i], Encoded(source, i + 1));
      var counts' := counts[i := source[i]];
      AppliedEncoded(source, i + 1, counts', data, limit, at + |EncodeI64(source[i])|);
      assert counts'[|source|..] == counts[|source|..];
    }
  }

  /** At the start of an encoded number the decoder returns it, and the rest follows. */
  lemma ReadOne(data: seq<byte>, at: nat, limit: nat, v: int, rest: seq<byte>)
    requires IsInt64(v) && at <= limit && limit + MAX_BYTES_LEB128 <= |data|
    requires data[at..limit] == EncodeI64(v) + rest
    ensures at < limit && at + |EncodeI64(v)| <= limit
    ensures DecodeI64(data, at) == (v, |EncodeI64(v)|)
    ensures data[at + |EncodeI64(v)|..limit] == rest
  {
    hide EncodeI64, DecodeI64;
    var e := EncodeI64(v);
    var after := rest + data[limit..];
    assert data[at..] == data[at..limit] + data[limit..] == e + after;
    assert data == data[..at] + data[at..] == data[..at] + e + after;
    DecodeEncode(v, data[..at], after);
    assert data[at + |e|..limit] == data[at..limit][|e|..];
  }

  // ----- what the payload is, and what the reader refuses -----

  /** A count other than 0 takes one number. */
  lemma CountIsOneNumber(counts: seq<int>, i: nat)
    requires i < |counts| <= INT32_MAX && Writable(counts) && counts[i] != 0
    ensures Encoded(counts, i) == EncodeI64(counts[i]) + Encoded(counts, i + 1)
  {
  }

  /** A run of zeros, from i to just before j and no further, takes one number. */
  lemma RunIsOneNumber(counts: seq<int>, i: nat, j: nat)
    requires i < j <= |counts| <= INT32_MAX && Writable(counts)
    requires (forall k :: i <= k < j ==> counts[k] == 0) && (j < |counts| ==> counts[j] != 0)
    ensures Encoded(counts, i) == EncodeI64(-(j - i)) + Encoded(counts, j)
  {
    hide EncodeI64;
    var e := RunEnd(counts, i + 1);
    assert e == j;
  }

  /** The boundary n falls inside a run of zeros. */
  predicate SplitsRun(source: seq<int>, n: nat) {
    0 < n < |source| && source[n - 1] == 0 && source[n] == 0
  }

  /** Reading a payload of more slots than the histogram has: refused as too long, or,
      where a run of zeros goes beyond the end, for that run. */
  lemma {:induction false} OversizedPayload(source: seq<int>, i: nat, counts: seq<int>, data: seq<byte>, limit: nat,
                                            at: nat)
    requires i <= |counts| < |source| <= INT32_MAX && Writable(source) && !SplitsRun(source, i)
    requires limit + MAX_BYTES_LEB128 <= |data| && at <= limit && data[at..limit] == Encoded(source, i)
    ensures Applied(counts, data, limit, at, i).1
            == if SplitsRun(source, |counts|) then HDR_TRAILING_ZEROS_INVALID else HDR_ENCODED_INPUT_TOO_LONG
    decreases |source| - i
  {
    hide EncodeI64, DecodeI64;
    if source[i] == 0 {
      var j := RunEnd(source, i + 1);
      ReadOne(data, at, limit, -(j - i), Encoded(source, j));
      if i < |counts| && j <= |counts| {
        OversizedPayload(source, j, counts, data, limit, at + |EncodeI64(-(j - i))|);
      }
    } else {
      ReadOne(data, at, limit, source[i], Encoded(source, i + 1));
      if i < |counts| {
        OversizedPayload(source, i + 1, counts[i := source[i]], data, limit, at + |EncodeI64(source[i])|);
      }
    }
  }

  /** Reading a payload cut short inside its last number, followed by the zero bytes of
      the reader's buffer: refused as truncated. */
  lemma {:induction false} TruncatedPayload(source: seq<int>, i: nat, counts: seq<int>, data: seq<byte>, limit: nat,
                                            at: nat, lost: seq<byte>)
    requires i < |source| <= INT32_MAX && Writable(source) && |source| <= |counts| && source[|source| - 1] != 0
    requires limit + MAX_BYTES_LEB128 <= |data| && at <= limit && data[limit] == 0
    requires data[at..limit] + lost == Encoded(source, i) && 0 < |lost| < |EncodeI64(source[|source| - 1])|
    ensures Applied(counts, data, limit, at, i).1 == HDR_VALUE_TRUNCATED
    decreases |source| - i
  {
    hide EncodeI64, DecodeI64;
    var last := source[|source| - 1];
    if i == |source| - 1 {
      var cut := limit - at;
      assert Encoded(source, i) == EncodeI64(last) + Encoded(source, i + 1) == EncodeI64(last);
      assert data[at..at + cut] == EncodeI64(last)[..cut];
      DecodeCut(data, at, last, cut);
    } else {
      var j := if source[i] == 0 then RunEnd(source, i + 1) else i + 1;
      var v := if source[i] == 0 then -(j - i) else source[i];
      assert Encoded(source, i) == EncodeI64(v) + Encoded(source, j) && j < |source|;
      LastNumberFits(source, j);
      ReadFirst(data, at, limit, v, Encoded(source, j), lost);
      TruncatedPayload(source, j, if source[i] == 0 then counts else counts[i := v], data, limit,
                       at + |EncodeI64(v)|, lost);
    }
  }

  lemma {:induction false} LastNumberFits(source: seq<int>, i: nat)
    requires i < |source| <= INT32_MAX && Writable(source) && source[|source| - 1] != 0
    ensures |Encoded(source, i)| >= |EncodeI64(source[|source| - 1])|
    decreases |source| - i
  {
    hide EncodeI64;
    if i < |source| - 1 {
      LastNumberFits(source, if source[i] == 0 then RunEnd(source, i + 1) else i + 1);
    }
  }

  /** The first number of a payload that is cut short behind it. */
  lemma ReadFirst(data: seq<byte>, at: nat, limit: nat, v: int, rest: seq<byte>, lost: seq<byte>)
    requires IsInt64(v) && at <= limit && limit + MAX_BYTES_LEB128 <= |data| && |lost| < |rest|
    requires data[at..limit] + lost == EncodeI64(v) + rest
    ensures at < limit && at + |EncodeI64(v)| <= limit && DecodeI64(data, at) == (v, |EncodeI64(v)|)
    ensures data[at + |EncodeI64(v)|..limit] + lost == rest
  {
    hide EncodeI64, DecodeI64;
    var e, kept := EncodeI64(v), data[at..limit];
    assert kept[..|e|] == (kept + lost)[..|e|] == e;
    assert kept == e + kept[|e|..];
    ReadOne(data, at, limit, v, kept[|e|..]);
    assert (kept + lost)[|e|..] == kept[|e|..] + lost;
    assert (e + rest)[|e|..] == rest;
  }

  /** Whatever the bytes are, counts that were writable stay so: no payload, however
      corrupt, puts a negative count in a histogram. */
  lemma {:induction false} AppliedWritable(counts: seq<int>, data: seq<byte>, limit: nat, at: nat, i: nat)
    requires limit + MAX_BYTES_LEB128 <= |data| && i <= |counts| && Writable(counts)
    ensures Writable(Applied(counts, data, limit, at, i).0)
    decreases |counts| - i
  {
    hide DecodeI64;
    if at < limit && i < |counts| {
      var (value, n) := DecodeI64(data, at);
      if value >= 0 {
        AppliedWritable(counts[i := value], data, limit, at + n, i + 1);
      } else if value > INT32_MIN && i - value <= |counts| {
        AppliedWritable(counts, data, limit, at + n, i - value);
      }
    }
  }

  /** The first countsLimit slots are written. */
  function CountsLimit(h: Hist): (n: nat)
    requires Valid(h) && h.maxValue >= 0
    ensures n <= |h.counts|
  {
    var lenToMax := CountsIndexFor(h.cfg, h.maxValue) + 1;
    if lenToMax < h.cfg.countsLen then lenToMax else h.cfg.countsLen
  }

  /** The slots up to the maximum's are written, all of them if it has none. */
  lemma CountsLimitIs(h: Hist)
    requires Valid(h) && h.maxValue >= 0
    ensures var n := CountsLimit(h);
            if CountsIndexFor(h.cfg, h.maxValue) < |h.counts|
            then 0 < n && ValueAtIndex(h.cfg, n - 1) <= h.maxValue < ValueAtIndex(h.cfg, n)
            else n == |h.counts|
  {
    hide Shaped, CountsIndexFor, ValueAtIndex;
    SlotTiling(h.cfg, h.maxValue, CountsIndexFor(h.cfg, h.maxValue));
  }

  function EncodedHistogram(h: Hist): (payload: seq<byte>)
    requires Valid(h) && h.maxValue >= 0 && |h.counts| <= INT32_MAX && Writable(h.counts)
    ensures |payload| <= MAX_BYTES_LEB128 * CountsLimit(h)
  {
    Encoded(h.counts[..CountsLimit(h)], 0)
  }

  datatype DecodeResult = Read(h: Hist) | Failed(rc: int)

  /** hdr_decode_compressed_v2 without the compression: the payload applied to a
      new histogram, then the counters recomputed. */
  function Decoded(c: Config, payload: seq<byte>): (r: DecodeResult)
    requires Shaped(c)
    ensures r.Read? ==> Valid(r.h) && r.h.cfg == c
  {
    var data := payload + seq(MAX_BYTES_LEB128, _ => 0);
    var (counts, rc) := Applied(Empty(c).counts, data, |payload|, 0, 0);
    if rc != 0 then Failed(rc) else Read(Recompute(Empty(c).(counts := counts)))
  }

  /** An encoded histogram always decodes, to the slots up to its maximum's;
      the counts survive exactly when nothing lies above those. */
  lemma DecodedEncoded(h: Hist)
    requires Valid(h) && h.maxValue >= 0 && |h.counts| <= INT32_MAX && Writable(h.counts)
    ensures var n := CountsLimit(h);
            Decoded(h.cfg, EncodedHistogram(h))
            == Read(Recompute(Empty(h.cfg).(counts := h.counts[..n] + seq(|h.counts| - n, _ => 0))))
    ensures Decoded(h.cfg, EncodedHistogram(h)).h.counts == h.counts
            <==> forall i :: CountsLimit(h) <= i < |h.counts| ==> h.counts[i] == 0
  {
    hide CountsLimit, Shaped, Encoded, Applied, LastPositive, FirstPositive, PositiveSum, ValueAtIndex,
         HighestEquivalent;
    var n, zeros := CountsLimit(h), Empty(h.cfg).counts;
    var source, payload := h.counts[..n], EncodedHistogram(h);
    var data := payload + seq(MAX_BYTES_LEB128, _ => 0);
    assert data[0..|payload|] == payload;
    AppliedEncoded(source, 0, zeros, data, |payload|, 0);
    assert zeros[n..] == seq(|h.counts| - n, _ => 0);
    var restored := source + zeros[n..];
    assert forall i :: 0 <= i < |restored| ==> restored[i] == if i < n then h.counts[i] else 0;
    assert restored == h.counts <==> forall i :: n <= i < |h.counts| ==> h.counts[i] == 0;
  }

  /** What recording built survives: the counts come back as they were, the
      total with them, and every percentile is answered as before. */
  lemma RecordedRoundTrip(c: Config, log: seq<Rec>, p: real)
    requires Shaped(c) && NaturalCounts(log) && c.countsLen <= INT32_MAX
    requires Replay(c, log).total <= INT64_MAX
    ensures var h := Replay(c, log);
            && h.maxValue >= 0 && Writable(h.counts)
            && Decoded(c, EncodedHistogram(h)) == Read(Recompute(h))
            && Recompute(h).counts == h.counts && Recompute(h).total == h.total
            && ValueAtPercentile(Recompute(h), p) == ValueAtPercentile(h, p)
  {
    var h := Replay(c, log);
    ReplayDescribes(c, log);
    CountsWritable(c, log);
    NothingAboveMax(c, log);
    TotalAgrees(c, log);
    hide Replay, Shaped, NaturalCounts, Decoded, EncodedHistogram, CountsLimit, Target, Truncate, LowestEquivalent,
         LastPositive, FirstPositive, PositiveSum, ValueAtIndex, HighestEquivalent, SlotSum, LogTotal, FirstReaching;
    DecodedEncoded(h);
    assert h.counts == h.counts[..CountsLimit(h)] + seq(|h.counts| - CountsLimit(h), _ => 0);
  }

  /** hdr_max and hdr_min after decoding are those of the recorded histogram except
      exactly where recomputation changes them. */
  lemma RecordedExtremes(c: Config, lowest: int, highest: int, figures: int, log: seq<Rec>)
    requires IsConfigFor(c, lowest, highest, figures) && PositiveCounts(log) && Replay(c, log).total <= INT64_MAX
    requires forall k :: 0 <= k < |log| ==> log[k].value <= INT64_MAX
    ensures var h := Replay(c, log);
            && h.maxValue >= 0 && h.minValue >= 0 && h.counts != [] && |h.counts| <= INT32_MAX && Writable(h.counts)
            && Decoded(c, EncodedHistogram(h)).Read?
    ensures var h := Replay(c, log);
            var d := Decoded(c, EncodedHistogram(h)).h;
            && d.counts == h.counts && d.total == h.total && d.maxValue >= 0 && d.minValue >= 0
            && (Max(d) == Max(h) <==> !(SomeAccepted(c, log) && AllAccepted(c, log, 0) && c.unitMagnitude > 0))
            && (Min(d) == Min(h) <==> !(SomeAccepted(c, log) && AllAccepted(c, log, INT64_MAX)))
  {
    assert Shaped(c) && c.unitMagnitude + c.halfMagnitude <= 61;
    CountsLenFits(c, lowest, highest, figures);
    hide IsConfigFor, Shaped, Replay, PositiveCounts, Decoded, EncodedHistogram, Max, Min, SomeAccepted, AllAccepted;
    PositiveIsNatural(log);
    RecordedRoundTrip(c, log, 1.0);
    MaxAgreesIff(c, log);
    MinAgreesIff(c, log);
  }

  /** The counts of a configured histogram fit the 32-bit lengths they are kept in. */
  lemma CountsLenFits(c: Config, lowest: int, highest: int, figures: int)
    requires IsConfigFor(c, lowest, highest, figures)
    ensures c.countsLen <= INT32_MAX
  {
    hide Pow10, Shl;
    Pow10Bound(figures);
    var n, m := c.bucketCount + 1, c.halfMagnitude;
    assert n <= 256 && c.subBucketHalfCount < 200000;
    Shl8(1);
    Shl8(c.subBucketHalfCount);
    ShlShl(1, 8, m);
    ShlShl(1, m, 8);
    ShlOrder(n, 256, m);
  }

  lemma Pow10Bound(figures: nat)
    requires figures <= 5
    ensures Pow10(figures) <= 100000
  {
    assert Pow10(1) == 10 && Pow10(2) == 100 && Pow10(3) == 1000 && Pow10(4) == 10000 && Pow10(5) == 100000;
  }

  lemma CountsWritable(c: Config, log: seq<Rec>)
    requires Shaped(c) && NaturalCounts(log) && Replay(c, log).total <= INT64_MAX
    ensures Writable(Replay(c, log).counts)
  {
    hide CountsIndexFor, Shaped, NaturalCounts, SlotSum, LogTotal, IsMinOf, IsMaxOf, Replay;
    var h := Replay(c, log);
    ReplayDescribes(c, log);
    ReplaySum(c, log);
    forall i | 0 <= i < |h.counts| ensures h.counts[i] >= 0 {
      SlotNatural(c, log, i);
    }
    forall i | 0 <= i < |h.counts| ensures h.counts[i] <= h.total {
      PrefixMonotone(h.counts, 0, i);
      PrefixMonotone(h.counts, i + 1, |h.counts|);
    }
  }

  lemma NothingAboveMax(c: Config, log: seq<Rec>)
    requires Shaped(c) && NaturalCounts(log)
    ensures var h := Replay(c, log);
            h.maxValue >= 0 && forall i :: CountsLimit(h) <= i < |h.counts| ==> h.counts[i] == 0
  {
    hide CountsIndexFor, Shaped, NaturalCounts, SlotSum, LogTotal, IsMinOf, Replay;
    var h := Replay(c, log);
    ReplayDescribes(c, log);
    forall i | CountsLimit(h) <= i < |h.counts| ensures h.counts[i] == 0 {
      SlotNatural(c, log, i);
      if k :| 0 <= k < |log| && Accepts(c, log[k].value) && CountsIndexFor(c, log[k].value) == i {
        CountsIndexMonotone(c, log[k].value, h.maxValue);
      }
    }
  }

  // ----- the loops -----

  /** The payload loop of hdr_encode_compressed, into a buffer of nine bytes a count. */
  method WritePayload(counts: array<int>, countsLimit: nat, buffer: array<byte>) returns (payloadLen: nat)
    requires countsLimit <= counts.Length && countsLimit <= INT32_MAX && Writable(counts[..countsLimit])
    requires buffer.Length == MAX_BYTES_LEB128 * countsLimit
    modifies buffer
    ensures payloadLen <= buffer.Length
    ensures buffer[..payloadLen] == Encoded(counts[..countsLimit], 0)
  {
    hide EncodeI64, Encoded;
    ghost var source := counts[..countsLimit];
    var i: nat, dataIndex: nat := 0, 0;
    while i < countsLimit
      invariant i <= countsLimit && dataIndex + |Encoded(source, i)| <= buffer.Length
      invariant buffer[..dataIndex] + Encoded(source, i) == Encoded(source, 0)
      decreases countsLimit - i
    {
      i, dataIndex := WriteNext(counts, countsLimit, buffer, i, dataIndex, source);
    }
    EmptyPayload(source);
    return dataIndex;
  }

  lemma EmptyPayload(source: seq<int>)
    requires |source| <= INT32_MAX && Writable(source)
    ensures Encoded(source, |source|) == []
  {
  }

  /** One turn of the loop. */
  method WriteNext(counts: array<int>, countsLimit: nat, buffer: array<byte>, i0: nat, dataIndex0: nat,
                   ghost source: seq<int>)
      returns (i: nat, dataIndex: nat)
    requires countsLimit <= counts.Length && countsLimit <= INT32_MAX && source == counts[..countsLimit]
    requires i0 < countsLimit && Writable(source) && dataIndex0 + |Encoded(source, i0)| <= buffer.Length
    modifies buffer
    ensures i0 < i <= countsLimit && dataIndex + |Encoded(source, i)| <= buffer.Length
    ensures buffer[..dataIndex] + Encoded(source, i) == old(buffer[..dataIndex0]) + Encoded(source, i0)
  {
    hide EncodeI64;
    i, dataIndex := i0, dataIndex0;
    var value := counts[i];
    i := i + 1;
    if value == 0 {
      var zeros := 1;
      while i < countsLimit && counts[i] == 0
        invariant i0 < i <= countsLimit && zeros == i - i0
        invariant RunEnd(source, i0 + 1) == RunEnd(source, i)
      {
        zeros := zeros + 1;
        i := i + 1;
      }
      value := -zeros;
    }
    var written := WriteI64(buffer, dataIndex, value);
    dataIndex := dataIndex + written;
  }

  /** apply_to_counts_zz */
  method ApplyToCounts(counts: array<int>, data: seq<byte>, dataLimit: nat) returns (rc: int)
    requires dataLimit + MAX_BYTES_LEB128 <= |data|
    modifies counts
    ensures (counts[..], rc) == Applied(old(counts[..]), data, dataLimit, 0, 0)
  {
    hide DecodeI64;
    var dataIndex, countsIndex := 0, 0;
    while dataIndex < dataLimit && countsIndex < counts.Length
      invariant countsIndex <= counts.Length
      invariant Applied(counts[..], data, dataLimit, dataIndex, countsIndex)
             == Applied(old(counts[..]), data, dataLimit, 0, 0)
      decreases counts.Length - countsIndex
    {
      var (value, n) := DecodeI64(data, dataIndex);
      dataIndex := dataIndex + n;
      if value < 0 {
        var zeros := -value;
        if value <= INT32_MIN || countsIndex + zeros > counts.Length {
          return HDR_TRAILING_ZEROS_INVALID;
        }
        countsIndex := countsIndex + zeros;
      } else {
        ghost var before := counts[..];
        counts[countsIndex] := value;
        assert counts[..] == before[countsIndex := value];
        countsIndex := countsIndex + 1;
      }
    }
    if dataIndex > dataLimit {
      return HDR_VALUE_TRUNCATED;
    } else if dataIndex < dataLimit {
      return HDR_ENCODED_INPUT_TOO_LONG;
    }
    return 0;
  }
}
