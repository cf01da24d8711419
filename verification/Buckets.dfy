/** The bucket configuration and the value <-> slot arithmetic of
    hdr_histogram.c. Values are unbounded integers; every quantity the C code
    stores fits 64 bits for an accepted configuration except the "next value"
    of the topmost slot, which can be 2^63. */
module Buckets {
  import opened Bits

  /** struct hdr_histogram_bucket_config */
  datatype Config = Config(
    lowestDiscernible: int,
    highestTrackable: int,
    significantFigures: int,
    unitMagnitude: nat,
    halfMagnitude: nat,
    subBucketCount: nat,
    subBucketHalfCount: nat,
    subBucketMask: nat,
    bucketCount: nat,
    countsLen: nat)

  /** What the index arithmetic needs of a configuration. */
  predicate Shaped(c: Config) {
    && c.subBucketCount == Pow2(c.halfMagnitude + 1)
    && c.subBucketHalfCount == Pow2(c.halfMagnitude)
    && c.subBucketMask == Shl(c.subBucketCount - 1, c.unitMagnitude)
    && 1 <= c.bucketCount
    && c.countsLen == Shl(c.bucketCount + 1, c.halfMagnitude)
  }

  // ----- slot arithmetic, hdr_histogram.c:144-257 -----

  function CountLeadingZeros64(x: nat): int {
    64 - BitLength(x)
  }

  function GetBucketIndex(c: Config, value: nat): int {
    var pow2ceiling := 64 - CountLeadingZeros64(BitOr(value, c.subBucketMask));
    pow2ceiling - c.unitMagnitude - (c.halfMagnitude + 1)
  }

  function GetSubBucketIndex(value: nat, bucketIndex: nat, unitMagnitude: nat): nat {
    Shr(value, bucketIndex + unitMagnitude)
  }

  function CountsIndex(c: Config, bucketIndex: nat, subBucketIndex: nat): int {
    var bucketBaseIndex := Shl(bucketIndex + 1, c.halfMagnitude);
    var offsetInBucket := subBucketIndex - c.subBucketHalfCount;
    bucketBaseIndex + offsetInBucket
  }

  function ValueFromIndex(bucketIndex: nat, subBucketIndex: nat, unitMagnitude: nat): nat {
    Shl(subBucketIndex, bucketIndex + unitMagnitude)
  }

  /** Where a value's bucket lies: bucket b > 0 holds exactly the values of
      bit length unitMagnitude + halfMagnitude + 1 + b. */
  lemma BucketIndexBounds(c: Config, value: nat)
    requires Shaped(c)
    ensures GetBucketIndex(c, value) >= 0
    ensures value < Pow2(c.unitMagnitude + c.halfMagnitude + 1 + GetBucketIndex(c, value))
    ensures GetBucketIndex(c, value) > 0 ==>
              Pow2(c.unitMagnitude + c.halfMagnitude + GetBucketIndex(c, value)) <= value
  {
    hide BitLength, BitOr, Shl;
    var u, m := c.unitMagnitude, c.halfMagnitude;
    MaskBitLength(c);
    BitLengthOr(value, c.subBucketMask);
    if value < c.subBucketMask {
      BitLengthMono(value, c.subBucketMask);
    } else {
      BitLengthMono(c.subBucketMask, value);
    }
  }

  lemma MaskBitLength(c: Config)
    requires Shaped(c)
    ensures BitLength(c.subBucketMask) == c.unitMagnitude + c.halfMagnitude + 1
  {
    var u, m := c.unitMagnitude, c.halfMagnitude;
    ShlShl(1, m, u);
    ShlShl(1, m + 1, u);
    ShlOrder(Pow2(m), c.subBucketCount - 1, u);
    ShlOrder(c.subBucketCount - 1, c.subBucketCount, u);
    BitLengthUnique(c.subBucketMask, u + m);
  }

  /** The bucket is the only b with 2^(u+m+b) <= value < 2^(u+m+1+b), or 0
      when value is below 2^(u+m+1). */
  lemma BucketIndexUnique(c: Config, value: nat, b: nat)
    requires Shaped(c)
    requires value < Pow2(c.unitMagnitude + c.halfMagnitude + 1 + b)
    requires b > 0 ==> Pow2(c.unitMagnitude + c.halfMagnitude + b) <= value
    ensures GetBucketIndex(c, value) == b
  {
    BucketIndexBounds(c, value);
    var g := GetBucketIndex(c, value);
    var k := c.unitMagnitude + c.halfMagnitude;
    if g < b {
      Pow2Mono(k + 1 + g, k + b);
    } else if b < g {
      Pow2Mono(k + 1 + b, k + g);
    }
  }

  /** The sub-bucket index is below sub_bucket_count, so the
      "sub_bucket_index >= sub_bucket_count" adjustment never fires, and in
      every bucket but the first it is in the upper half. */
  lemma SubBucketBounds(c: Config, value: nat)
    requires Shaped(c)
    ensures GetBucketIndex(c, value) >= 0
    ensures
      var b := GetBucketIndex(c, value);
      var s := GetSubBucketIndex(value, b, c.unitMagnitude);
      && s < c.subBucketCount
      && (b > 0 ==> c.subBucketHalfCount <= s)
      && Shl(s, b + c.unitMagnitude) <= value < Shl(s, b + c.unitMagnitude) + Pow2(b + c.unitMagnitude)
  {
    hide Shl, BitOr, BitLength, GetBucketIndex;
    BucketIndexBounds(c, value);
    var b := GetBucketIndex(c, value);
    var k := b + c.unitMagnitude;
    var s := Shr(value, k);
    ShlShl(1, c.halfMagnitude + 1, k);
    ShlShl(1, c.halfMagnitude, k);
    ShlOrder(c.subBucketCount, s, k);
    ShlOrder(s, c.subBucketHalfCount, k);
  }

  function CountsIndexFor(c: Config, value: nat): nat
    requires Shaped(c)
  {
    BucketIndexBounds(c, value);
    var bucketIndex := GetBucketIndex(c, value);
    var subBucketIndex := GetSubBucketIndex(value, bucketIndex, c.unitMagnitude);
    ShlAdd(bucketIndex, 1, c.halfMagnitude);
    CountsIndex(c, bucketIndex, subBucketIndex)
  }

  lemma CountsIndexParts(c: Config, value: nat)
    requires Shaped(c)
    ensures GetBucketIndex(c, value) >= 0
    ensures var b := GetBucketIndex(c, value);
            CountsIndexFor(c, value) == Shl(b, c.halfMagnitude) + GetSubBucketIndex(value, b, c.unitMagnitude)
  {
    hide Shl, Shr, BitOr, BitLength, GetBucketIndex, GetSubBucketIndex;
    BucketIndexBounds(c, value);
    ShlAdd(GetBucketIndex(c, value), 1, c.halfMagnitude);
  }

  /** (bucket, sub-bucket) of a slot. */
  function SlotParts(c: Config, index: nat): (p: (nat, nat))
    requires Shaped(c)
    ensures index == Shl(p.0, c.halfMagnitude) + p.1
    ensures p.1 < c.subBucketCount
    ensures p.0 > 0 ==> c.subBucketHalfCount <= p.1
  {
    var bucketIndex := Shr(index, c.halfMagnitude) - 1;
    BitAndMask(index, c.halfMagnitude);
    var subBucketIndex := BitAnd(index, c.subBucketHalfCount - 1) + c.subBucketHalfCount;
    ShlAdd(if bucketIndex < 0 then 0 else bucketIndex, 1, c.halfMagnitude);
    if bucketIndex < 0 then (0, subBucketIndex - c.subBucketHalfCount) else (bucketIndex, subBucketIndex)
  }

  function ValueAtIndex(c: Config, index: nat): nat
    requires Shaped(c)
  {
    var p := SlotParts(c, index);
    ValueFromIndex(p.0, p.1, c.unitMagnitude)
  }

  function SizeOfEquivalentValueRange(c: Config, value: nat): nat
    requires Shaped(c)
  {
    BucketIndexBounds(c, value);
    var bucketIndex := GetBucketIndex(c, value);
    var subBucketIndex := GetSubBucketIndex(value, bucketIndex, c.unitMagnitude);
    var adjustedBucket := if subBucketIndex >= c.subBucketCount then bucketIndex + 1 else bucketIndex;
    Pow2(c.unitMagnitude + adjustedBucket)
  }

  function LowestEquivalent(c: Config, value: nat): nat
    requires Shaped(c)
  {
    BucketIndexBounds(c, value);
    var bucketIndex := GetBucketIndex(c, value);
    var subBucketIndex := GetSubBucketIndex(value, bucketIndex, c.unitMagnitude);
    ValueFromIndex(bucketIndex, subBucketIndex, c.unitMagnitude)
  }

  function NextNonEquivalent(c: Config, value: nat): nat
    requires Shaped(c)
  {
    LowestEquivalent(c, value) + SizeOfEquivalentValueRange(c, value)
  }

  function HighestEquivalent(c: Config, value: nat): int
    requires Shaped(c)
  {
    NextNonEquivalent(c, value) - 1
  }

  // ----- bijection and tiling -----

  /** A slot's lowest value lies in the slot's own bucket. */
  lemma SlotValueParts(c: Config, index: nat)
    requires Shaped(c)
    ensures GetBucketIndex(c, ValueAtIndex(c, index)) == SlotParts(c, index).0
    ensures GetSubBucketIndex(ValueAtIndex(c, index), SlotParts(c, index).0, c.unitMagnitude) == SlotParts(c, index).1
  {
    hide Shl, Shr, BitAnd, BitOr, BitLength, SlotParts, GetBucketIndex;
    var (b, s) := SlotParts(c, index);
    ShiftedParts(c, b, s);
  }

  lemma ShiftedParts(c: Config, b: nat, s: nat)
    requires Shaped(c) && s < c.subBucketCount && (b > 0 ==> c.subBucketHalfCount <= s)
    ensures var value := Shl(s, b + c.unitMagnitude);
            GetBucketIndex(c, value) == b && Shr(value, b + c.unitMagnitude) == s
  {
    hide Shl, Shr, BitOr, BitLength, GetBucketIndex;
    var m, k := c.halfMagnitude, b + c.unitMagnitude;
    var value := Shl(s, k);
    ShlShl(1, m + 1, k);
    ShlShl(1, m, k);
    ShlOrder(s, c.subBucketCount, k);
    ShlOrder(c.subBucketHalfCount, s, k);
    BucketIndexUnique(c, value, b);
    ShrUnique(value, k, s);
  }

  lemma IndexOfValueAtIndex(c: Config, index: nat)
    requires Shaped(c)
    ensures CountsIndexFor(c, ValueAtIndex(c, index)) == index
  {
    SlotValueParts(c, index);
    CountsIndexParts(c, ValueAtIndex(c, index));
  }

  lemma SlotPartsUnique(c: Config, index: nat, b: nat, s: nat)
    requires Shaped(c)
    requires index == Shl(b, c.halfMagnitude) + s
    requires s < c.subBucketCount && (b > 0 ==> c.subBucketHalfCount <= s)
    ensures SlotParts(c, index) == (b, s)
  {
    hide Shl, Shr, BitAnd;
    var half := c.subBucketHalfCount;
    Pow2Succ(c.halfMagnitude);
    assert Shl(0, c.halfMagnitude) == 0;
    BitAndMask(index, c.halfMagnitude);
    if s < half {
      ShrUnique(index, c.halfMagnitude, 0);
    } else {
      ShlAdd(b, 1, c.halfMagnitude);
      ShrUnique(index, c.halfMagnitude, b + 1);
    }
  }

  lemma ValueAtIndexOfValue(c: Config, value: nat)
    requires Shaped(c)
    ensures ValueAtIndex(c, CountsIndexFor(c, value)) == LowestEquivalent(c, value)
  {
    SubBucketBounds(c, value);
    CountsIndexParts(c, value);
    var b := GetBucketIndex(c, value);
    SlotPartsUnique(c, CountsIndexFor(c, value), b, GetSubBucketIndex(value, b, c.unitMagnitude));
  }

  /** A value lies inside the range its slot covers. */
  lemma InOwnRange(c: Config, value: nat)
    requires Shaped(c)
    ensures LowestEquivalent(c, value) <= value < NextNonEquivalent(c, value)
    ensures GetBucketIndex(c, value) >= 0
    ensures SizeOfEquivalentValueRange(c, value) == Pow2(c.unitMagnitude + GetBucketIndex(c, value))
  {
    SubBucketBounds(c, value);
  }

  /** Consecutive slots meet: the next slot begins where this one ends. */
  lemma SlotsMeet(c: Config, index: nat)
    requires Shaped(c)
    ensures NextNonEquivalent(c, ValueAtIndex(c, index)) == ValueAtIndex(c, index + 1)
    ensures LowestEquivalent(c, ValueAtIndex(c, index)) == ValueAtIndex(c, index)
  {
    hide Shl, Shr, BitAnd, BitOr, BitLength, SlotParts, GetBucketIndex, GetSubBucketIndex,
         SizeOfEquivalentValueRange;
    SlotValueParts(c, index);
    var (b, s) := SlotParts(c, index);
    InOwnRange(c, ValueAtIndex(c, index));
    ShlAdd(s, 1, b + c.unitMagnitude);
    NextSlotValue(c, index, b, s);
  }

  /** The next slot is one sub-bucket on, or the first in the next bucket. */
  lemma NextSlotValue(c: Config, index: nat, b: nat, s: nat)
    requires Shaped(c) && SlotParts(c, index) == (b, s)
    ensures ValueAtIndex(c, index + 1) == Shl(s + 1, b + c.unitMagnitude)
  {
    hide Shl, SlotParts;
    var half, k := c.subBucketHalfCount, b + c.unitMagnitude;
    if s + 1 < c.subBucketCount {
      SlotPartsUnique(c, index + 1, b, s + 1);
    } else {
      Pow2Succ(c.halfMagnitude);
      ShlAdd(b, 1, c.halfMagnitude);
      SlotPartsUnique(c, index + 1, b + 1, half);
      ShlAdd(half, half, k);
      ShlSucc(half, k);
    }
  }

  lemma {:induction false} ValueAtIndexStrict(c: Config, i: nat, j: nat)
    requires Shaped(c) && i < j
    ensures NextNonEquivalent(c, ValueAtIndex(c, i)) <= ValueAtIndex(c, j)
    ensures ValueAtIndex(c, i) < ValueAtIndex(c, j)
  {
    hide *;
    SlotsMeet(c, j - 1);
    InOwnRange(c, ValueAtIndex(c, j - 1));
    if i < j - 1 {
      ValueAtIndexStrict(c, i, j - 1);
    }
  }

  lemma FirstSlotIsZero(c: Config)
    requires Shaped(c)
    ensures ValueAtIndex(c, 0) == 0
  {
    hide Shr, BitAnd, SlotParts;
    SlotPartsUnique(c, 0, 0, 0);
  }

  /** Every value of slot i has slot index i and no other value does: the slots
      tile the naturals from 0 with no gap and no overlap. */
  lemma SlotTiling(c: Config, value: nat, index: nat)
    requires Shaped(c)
    ensures ValueAtIndex(c, 0) == 0
    ensures CountsIndexFor(c, value) == index
            <==> ValueAtIndex(c, index) <= value < ValueAtIndex(c, index + 1)
  {
    hide *;
    FirstSlotIsZero(c);
    var k := CountsIndexFor(c, value);
    ValueAtIndexOfValue(c, value);
    InOwnRange(c, value);
    SlotsMeet(c, k);
    NextOfLowest(c, value);
    if k < index {
      if k + 1 < index { ValueAtIndexStrict(c, k + 1, index); }
    } else if index < k {
      if index + 1 < k { ValueAtIndexStrict(c, index + 1, k); }
    }
  }

  /** All values of a slot share its bounds. */
  lemma NextOfLowest(c: Config, value: nat)
    requires Shaped(c)
    ensures NextNonEquivalent(c, LowestEquivalent(c, value)) == NextNonEquivalent(c, value)
  {
    hide Shl, Shr, BitAnd, BitOr, BitLength, SlotParts, GetBucketIndex, GetSubBucketIndex, LowestEquivalent;
    var k := CountsIndexFor(c, value);
    ValueAtIndexOfValue(c, value);
    SubBucketBounds(c, value);
    CountsIndexParts(c, value);
    var b := GetBucketIndex(c, value);
    SlotPartsUnique(c, k, b, GetSubBucketIndex(value, b, c.unitMagnitude));
    SlotValueParts(c, k);
    InOwnRange(c, value);
    InOwnRange(c, LowestEquivalent(c, value));
    SlotsMeet(c, k);
  }

  lemma CountsIndexMonotone(c: Config, v: nat, w: nat)
    requires Shaped(c) && v <= w
    ensures CountsIndexFor(c, v) <= CountsIndexFor(c, w)
  {
    hide *;
    var i, j := CountsIndexFor(c, v), CountsIndexFor(c, w);
    SlotTiling(c, v, i);
    SlotTiling(c, w, j);
    if j < i {
      if j + 1 < i { ValueAtIndexStrict(c, j + 1, i); }
    }
  }

  /** Same slot, same bounds; and equal lower bounds mean the same slot. */
  lemma EquivalentIffSameSlot(c: Config, v: nat, w: nat)
    requires Shaped(c)
    ensures CountsIndexFor(c, v) == CountsIndexFor(c, w)
            <==> LowestEquivalent(c, v) == LowestEquivalent(c, w)
    ensures CountsIndexFor(c, v) == CountsIndexFor(c, w)
            ==> HighestEquivalent(c, v) == HighestEquivalent(c, w)
  {
    ValueAtIndexOfValue(c, v);
    ValueAtIndexOfValue(c, w);
    NextOfLowest(c, v);
    NextOfLowest(c, w);
    IndexOfValueAtIndex(c, CountsIndexFor(c, v));
    IndexOfValueAtIndex(c, CountsIndexFor(c, w));
  }

  /** The values equivalent to v are those from its lowest to its highest equivalent. */
  lemma EquivalentRange(c: Config, v: nat, w: nat)
    requires Shaped(c)
    ensures CountsIndexFor(c, w) == CountsIndexFor(c, v) <==> LowestEquivalent(c, v) <= w <= HighestEquivalent(c, v)
  {
    hide Shaped, CountsIndexFor, ValueAtIndex, LowestEquivalent, NextNonEquivalent;
    var i := CountsIndexFor(c, v);
    ValueAtIndexOfValue(c, v);
    NextOfLowest(c, v);
    SlotsMeet(c, i);
    SlotTiling(c, w, i);
  }

  /** A slot index is inside counts exactly when the value is below
      sub_bucket_count << (unit_magnitude + bucket_count - 1). */
  lemma RecordableRange(c: Config, value: nat)
    requires Shaped(c)
    ensures CountsIndexFor(c, value) < c.countsLen
            <==> value < Pow2(c.unitMagnitude + c.halfMagnitude + c.bucketCount)
    ensures ValueAtIndex(c, c.countsLen) == Pow2(c.unitMagnitude + c.halfMagnitude + c.bucketCount)
  {
    var half, n := c.subBucketHalfCount, c.bucketCount;
    hide Shl, Shr, BitAnd, BitOr, BitLength, SlotParts, CountsIndexFor;
    ShlAdd(n, 1, c.halfMagnitude);
    Pow2Succ(c.halfMagnitude);
    SlotPartsUnique(c, c.countsLen, n, half);
    ShlShl(1, c.halfMagnitude, n + c.unitMagnitude);
    assert ValueAtIndex(c, c.countsLen) == Pow2(c.unitMagnitude + c.halfMagnitude + n);
    hide *;
    var k := CountsIndexFor(c, value);
    SlotTiling(c, value, k);
    if k + 1 < c.countsLen {
      ValueAtIndexStrict(c, k + 1, c.countsLen);
    } else if c.countsLen < k {
      ValueAtIndexStrict(c, c.countsLen, k);
    }
  }

  // ----- configuration, hdr_histogram.c:318-387 -----

  /** Exact floor of the base-2 logarithm. */
  function FloorLog2(x: nat): (n: nat)
    requires x > 0
    ensures Pow2(n) <= x < Pow2(n + 1)
  {
    BitLength(x) - 1
  }

  /** Exact ceiling of the base-2 logarithm. */
  function CeilLog2(x: nat): (n: nat)
    requires x > 1
    ensures n > 0 && Pow2(n - 1) < x <= Pow2(n)
  {
    BitLength(x - 1)
  }

  /** The least number of buckets, at least one, whose combined range goes
      beyond value. */
  predicate IsLeastBucketCount(n: nat, value: int, subBucketCount: nat, unitMagnitude: nat) {
    && 1 <= n
    && value < Shl(subBucketCount, unitMagnitude + n - 1)
    && (n > 1 ==> Shl(subBucketCount, unitMagnitude + n - 2) <= value)
  }

  method BucketsNeededToCoverValue(value: int, m: nat, unitMagnitude: nat) returns (bucketsNeeded: nat)
    requires value <= INT64_MAX
    requires unitMagnitude + m <= 61
    ensures IsLeastBucketCount(bucketsNeeded, value, Pow2(m + 1), unitMagnitude)
    ensures unitMagnitude + m + bucketsNeeded <= 63
  {
    hide Shl, Pow2;
    var subBucketCount := Pow2(m + 1);
    var smallestUntrackable := Shl(subBucketCount, unitMagnitude);
    bucketsNeeded := 1;
    ShiftedCount(m, unitMagnitude);
    Pow2Values();
    while smallestUntrackable <= value
      invariant 1 <= bucketsNeeded && unitMagnitude + m + bucketsNeeded <= 62
      invariant smallestUntrackable == Pow2(unitMagnitude + m + bucketsNeeded)
      invariant bucketsNeeded > 1 ==> Pow2(unitMagnitude + m + bucketsNeeded - 1) <= value
      decreases 62 - bucketsNeeded
    {
      Pow2Succ(unitMagnitude + m + bucketsNeeded);
      Pow2Mono(unitMagnitude + m + bucketsNeeded, 62);
      if smallestUntrackable > INT64_MAX / 2 {
        LeastCount(value, m, unitMagnitude, bucketsNeeded + 1);
        return bucketsNeeded + 1;
      }
      smallestUntrackable := smallestUntrackable * 2;
      bucketsNeeded := bucketsNeeded + 1;
    }
    LeastCount(value, m, unitMagnitude, bucketsNeeded);
  }

  lemma ShiftedCount(m: nat, k: nat)
    ensures Shl(Pow2(m + 1), k) == Pow2(m + 1 + k)
  {
    ShlShl(1, m + 1, k);
  }

  lemma LeastCount(value: int, m: nat, u: nat, n: nat)
    requires 1 <= n && value < Pow2(u + m + n) && (n > 1 ==> Pow2(u + m + n - 1) <= value)
    ensures IsLeastBucketCount(n, value, Pow2(m + 1), u)
  {
    hide Shl, Pow2;
    ShiftedCount(m, u + n - 1);
    if n > 1 { ShiftedCount(m, u + n - 2); }
  }

  datatype ConfigResult = Accepted(config: Config) | Invalid

  /** The configurations the parameter checks let through. */
  predicate Acceptable(lowest: int, highest: int, figures: int) {
    && 1 <= lowest
    && 1 <= figures <= 5
    && 2 * lowest <= highest
    && FloorLog2(lowest) + (CeilLog2(2 * Pow10(figures)) - 1) <= 61
  }

  /** The last condition in other words: the values with single-unit resolution, in
      units, stay within 2^62. */
  lemma AcceptableMeans(lowest: int, highest: int, figures: int, u: nat, m: nat)
    requires 1 <= lowest && 1 <= figures <= 5 && 2 * lowest <= highest
    requires Pow2(u) <= lowest < Pow2(u + 1) && 0 < m && Pow2(m - 1) < 2 * Pow10(figures) <= Pow2(m)
    ensures Acceptable(lowest, highest, figures) <==> Shl(Pow2(m), u) <= 0x4000_0000_0000_0000
  {
    hide Shl, Pow2, Pow10, BitLength;
    assert FloorLog2(lowest) == u by { LogUnique(lowest, FloorLog2(lowest), u); }
    assert CeilLog2(2 * Pow10(figures)) == m by { CeilUnique(2 * Pow10(figures), CeilLog2(2 * Pow10(figures)), m); }
    hide FloorLog2, CeilLog2;
    ShiftedCount(m - 1, u);
    Pow2Values();
    if u + m <= 62 { Pow2Mono(u + m, 62); } else { Pow2Mono(62, u + m); }
  }

  lemma LogUnique(x: nat, a: nat, b: nat)
    requires Pow2(a) <= x < Pow2(a + 1) && Pow2(b) <= x < Pow2(b + 1)
    ensures a == b
  {
    hide Pow2;
    if a < b { Pow2Mono(a + 1, b); } else if b < a { Pow2Mono(b + 1, a); }
  }

  lemma CeilUnique(x: nat, a: nat, b: nat)
    requires 0 < a && 0 < b && Pow2(a - 1) < x <= Pow2(a) && Pow2(b - 1) < x <= Pow2(b)
    ensures a == b
  {
    hide Pow2;
    if a < b { Pow2Mono(a, b - 1); } else if b < a { Pow2Mono(b, a - 1); }
  }

  /** What an accepted configuration is, stated without the way it is computed. */
  predicate IsConfigFor(c: Config, lowest: int, highest: int, figures: int) {
    && Shaped(c)
    && c.lowestDiscernible == lowest && c.highestTrackable == highest && c.significantFigures == figures
    && 1 <= figures <= 5
    && Pow2(c.unitMagnitude) <= lowest < Pow2(c.unitMagnitude + 1)
    && c.subBucketHalfCount < 2 * Pow10(figures) <= c.subBucketCount
    && IsLeastBucketCount(c.bucketCount, highest, c.subBucketCount, c.unitMagnitude)
    && c.unitMagnitude + c.halfMagnitude <= 61
    && c.unitMagnitude + c.halfMagnitude + c.bucketCount <= 63
    && highest <= INT64_MAX
  }

  lemma FigureBounds(figures: nat)
    requires 1 <= figures
    ensures CeilLog2(2 * Pow10(figures)) > 1
  {
    assert Pow10(figures) >= 10;
    assert Pow2(0) == 1 && Pow2(1) == 2;
    hide *;
    var n := CeilLog2(2 * Pow10(figures));
    assert n != 1;
  }

  method CalculateBucketConfig(lowest: int, highest: int, figures: int) returns (r: ConfigResult)
    requires INT64_MIN <= lowest <= INT64_MAX && INT64_MIN <= highest <= INT64_MAX
    ensures r.Accepted? <==> Acceptable(lowest, highest, figures)
    ensures r.Accepted? ==> IsConfigFor(r.config, lowest, highest, figures)
  {
    hide Shl, Wrap64, Pow10, BitLength, FloorLog2, CeilLog2, Pow2;
    if lowest < 1 || figures < 1 || 5 < figures || Wrap64(lowest * 2) > highest {
      return Invalid;
    }
    var largestWithSingleUnitResolution := 2 * Pow10(figures);
    var subBucketCountMagnitude := CeilLog2(largestWithSingleUnitResolution);
    var halfMagnitude := (if subBucketCountMagnitude > 1 then subBucketCountMagnitude else 1) - 1;
    var unitMagnitude := FloorLog2(lowest);
    FigureBounds(figures);
    DoublingOverflow(lowest, highest, unitMagnitude);
    Pow2Succ(halfMagnitude);
    var subBucketCount := Pow2(halfMagnitude + 1);
    var subBucketHalfCount := subBucketCount / 2;
    var subBucketMask := Shl(subBucketCount - 1, unitMagnitude);
    if unitMagnitude + halfMagnitude > 61 {
      return Invalid;
    }
    var bucketCount := BucketsNeededToCoverValue(highest, halfMagnitude, unitMagnitude);
    var countsLen := (bucketCount + 1) * subBucketHalfCount;
    CountsLenIs(bucketCount + 1, halfMagnitude, subBucketHalfCount);
    r := Accepted(Config(lowest, highest, figures, unitMagnitude, halfMagnitude,
                         subBucketCount, subBucketHalfCount, subBucketMask, bucketCount, countsLen));
  }

  lemma CountsLenIs(n: nat, m: nat, half: nat)
    requires half == Pow2(m)
    ensures n * half == Shl(n, m)
  {
    ShlIsMul(n, m);
  }

  /** The 64-bit product lowest * 2 overflows only for lowest >= 2^62, whose
      unit magnitude is refused anyway. */
  lemma DoublingOverflow(lowest: int, highest: int, u: nat)
    requires 1 <= lowest <= INT64_MAX && highest <= INT64_MAX
    requires Pow2(u) <= lowest < Pow2(u + 1)
    ensures lowest * 2 <= INT64_MAX ==> Wrap64(lowest * 2) == lowest * 2
    ensures lowest * 2 > INT64_MAX ==> u >= 62
  {
    Pow2Values();
    if lowest * 2 > INT64_MAX && u < 62 {
      Pow2Mono(u + 1, 62);
    }
  }

  /** Every value from 0 to highest_trackable_value has a slot, and one bucket
      fewer would leave highest_trackable_value out. */
  lemma RangeCovered(c: Config, lowest: int, highest: int, figures: int, value: nat)
    requires IsConfigFor(c, lowest, highest, figures)
    requires value <= highest
    ensures CountsIndexFor(c, value) < c.countsLen
    ensures c.bucketCount > 1 && highest >= 0 ==> CountsIndexFor(c, highest) >= c.countsLen - c.subBucketHalfCount
    ensures ValueAtIndex(c, c.countsLen) <= INT64_MAX + 1
  {
    hide Shl, CountsIndexFor, ValueAtIndex, Pow10;
    var u, m, n := c.unitMagnitude, c.halfMagnitude, c.bucketCount;
    ShlShl(1, m + 1, u + n - 1);
    RecordableRange(c, value);
    Pow2Values();
    Pow2Mono(u + m + n, 63);
    if n > 1 && highest >= 0 {
      ShlShl(1, m + 1, u + n - 2);
      var c' := c.(bucketCount := n - 1, countsLen := Shl(n, m));
      RecordableRange(c', highest);
      ShlAdd(n, 1, m);
      CountsIndexIgnoresLength(c, c', highest);
    }
  }

  lemma CountsIndexIgnoresLength(c: Config, c': Config, value: nat)
    requires Shaped(c) && Shaped(c')
    requires c.unitMagnitude == c'.unitMagnitude && c.halfMagnitude == c'.halfMagnitude
    ensures CountsIndexFor(c, value) == CountsIndexFor(c', value)
  {
    hide Shl, Shr, BitOr, BitLength;
  }

  /** Precision: in bucket 0 a slot is one unit wide; above it, a slot's width
      times 10^significant_figures never exceeds a value it holds. */
  lemma Precision(c: Config, lowest: int, highest: int, figures: int, value: nat)
    requires IsConfigFor(c, lowest, highest, figures)
    ensures GetBucketIndex(c, value) == 0 ==> SizeOfEquivalentValueRange(c, value) == Pow2(c.unitMagnitude)
    ensures GetBucketIndex(c, value) > 0 ==> SizeOfEquivalentValueRange(c, value) * Pow10(figures) <= value
  {
    hide Shl, Pow10, GetBucketIndex, GetSubBucketIndex, SizeOfEquivalentValueRange, LowestEquivalent, NextNonEquivalent;
    Pow2Succ(c.halfMagnitude);
    BucketIndexBounds(c, value);
    InOwnRange(c, value);
    var b := GetBucketIndex(c, value);
    if b > 0 {
      ShlShl(1, c.halfMagnitude, c.unitMagnitude + b);
      ScaledBound(Pow10(figures), c.subBucketHalfCount, c.unitMagnitude + b, value);
    }
  }

  lemma ScaledBound(x: nat, y: nat, k: nat, value: nat)
    requires x <= y && Shl(y, k) <= value
    ensures Pow2(k) * x <= value
  {
    hide *;
    ShlOrder(x, y, k);
    ShlIsMul(x, k);
    assert x * Pow2(k) == Pow2(k) * x;
  }
}
