/** The benchmark's record codec: key-value pairs as length-prefixed byte strings
    (db/rocksdb_cloud_db.cc) over little-endian 64-bit numbers (lib/coding.h). */
module RecordCodec {
  import opened Basics
  import opened Bits

  datatype KVPair = KVPair(key: seq<byte>, value: seq<byte>)

  const WORD_BYTES := 8

  // ----- lib/coding.h -----

  /** The low n bytes of v, lowest first. */
  function LowBytes(v: nat, n: nat): (b: seq<byte>)
    ensures |b| == n
    decreases n
  {
    if n == 0 then [] else [v % 256] + LowBytes(v / 256, n - 1)
  }

  function FromBytes(b: seq<byte>): (v: nat) {
    if b == [] then 0 else b[0] + 256 * FromBytes(b[1..])
  }

  /** 256^n */
  function Range(n: nat): (r: nat)
    ensures r > 0
  {
    if n == 0 then 1 else 256 * Range(n - 1)
  }

  lemma {:induction false} BytesReadBack(v: nat, n: nat)
    requires v < Range(n)
    ensures FromBytes(LowBytes(v, n)) == v
    decreases n
  {
    if n > 0 {
      BytesReadBack(v / 256, n - 1);
      assert LowBytes(v, n)[1..] == LowBytes(v / 256, n - 1);
    }
  }

  lemma {:induction false} BytesPrintBack(b: seq<byte>)
    ensures FromBytes(b) < Range(|b|) && LowBytes(FromBytes(b), |b|) == b
    decreases |b|
  {
    if b != [] {
      BytesPrintBack(b[1..]);
      var v := FromBytes(b[1..]);
      assert (b[0] + 256 * v) / 256 == v;
      assert b == [b[0]] + b[1..];
    }
  }

  lemma WordRange()
    ensures Range(WORD_BYTES) == WORDS
  {
    assert Range(1) == 256 * Range(0) && Range(2) == 256 * Range(1) && Range(3) == 256 * Range(2);
    assert Range(4) == 256 * Range(3) && Range(5) == 256 * Range(4) && Range(6) == 256 * Range(5);
    assert Range(7) == 256 * Range(6) && Range(8) == 256 * Range(7);
  }

  /** EncodeFixed64, and what PutFixed64 appends. */
  function EncodeFixed64(v: nat): (b: seq<byte>)
    ensures |b| == WORD_BYTES
  {
    LowBytes(v, WORD_BYTES)
  }

  /** DecodeFixed64 at an offset. */
  function DecodeFixed64(s: seq<byte>, at: nat): (v: nat)
    requires at + WORD_BYTES <= |s|
    ensures v < WORDS
  {
    WordRange();
    BytesPrintBack(s[at..at + WORD_BYTES]);
    FromBytes(s[at..at + WORD_BYTES])
  }

  // ----- the codec as functions -----

  /** Sizes are 64-bit; the pair count is compared with a 32-bit loop counter. */
  predicate Encodable(kvs: seq<KVPair>) {
    && |kvs| < 0x1_0000_0000
    && (forall i :: 0 <= i < |kvs| ==> |kvs[i].key| < WORDS && |kvs[i].value| < WORDS)
  }

  function Prefixed(s: seq<byte>): seq<byte> {
    EncodeFixed64(|s|) + s
  }

  function Pairs(kvs: seq<KVPair>): seq<byte> {
    if kvs == [] then [] else Prefixed(kvs[0].key) + Prefixed(kvs[0].value) + Pairs(kvs[1..])
  }

  function Serialized(kvs: seq<KVPair>): seq<byte> {
    EncodeFixed64(|kvs|) + Pairs(kvs)
  }

  /** One length-prefixed string: its content and the offset behind it, None
      where the reader would run off the buffer. */
  function TakeString(s: seq<byte>, at: nat): (r: Option<(seq<byte>, nat)>)
    ensures r.Some? ==> at + WORD_BYTES <= r.value.1 <= |s| && r.value.1 == at + WORD_BYTES + |r.value.0|
  {
    if at + WORD_BYTES > |s| then None
    else
      var n := DecodeFixed64(s, at);
      if at + WORD_BYTES + n > |s| then None
      else Some((s[at + WORD_BYTES..at + WORD_BYTES + n], at + WORD_BYTES + n))
  }

  function TakePair(s: seq<byte>, at: nat): (r: Option<(KVPair, nat)>)
    ensures r.Some? ==> at < r.value.1 <= |s|
  {
    var key := TakeString(s, at);
    if key.None? then None
    else
      var value := TakeString(s, key.value.1);
      if value.None? then None else Some((KVPair(key.value.0, value.value.0), value.value.1))
  }

  function TakePairs(s: seq<byte>, at: nat, n: nat): (r: Option<(seq<KVPair>, nat)>)
    requires at <= |s|
    ensures r.Some? ==> |r.value.0| == n && at <= r.value.1 <= |s|
    decreases n
  {
    if n == 0 then Some(([], at))
    else
      var first := TakePair(s, at);
      if first.None? then None
      else
        var rest := TakePairs(s, first.value.1, n - 1);
        if rest.None? then None else Some(([first.value.0] + rest.value.0, rest.value.1))
  }

  /** The pairs a buffer holds and where they end. */
  function Parsed(s: seq<byte>): (r: Option<(seq<KVPair>, nat)>)
  {
    if |s| < WORD_BYTES then None else TakePairs(s, WORD_BYTES, DecodeFixed64(s, 0))
  }

  // ----- round trips -----

  /** A string is taken from where its prefixed form stands, and from nowhere else. */
  lemma TakeStringIff(s: seq<byte>, at: nat, x: seq<byte>)
    requires |x| < WORDS
    ensures var next := at + |Prefixed(x)|;
            TakeString(s, at) == Some((x, next)) <==> next <= |s| && s[at..next] == Prefixed(x)
  {
    var body, next := at + WORD_BYTES, at + |Prefixed(x)|;
    if next <= |s| {
      WordRange();
      BytesReadBack(|x|, WORD_BYTES);
      BytesPrintBack(s[at..body]);
      hide LowBytes, FromBytes, Range;
      assert s[at..next] == s[at..body] + s[body..next];
      assert s[at..next][..WORD_BYTES] == s[at..body] && s[at..next][WORD_BYTES..] == s[body..next];
      assert Prefixed(x)[..WORD_BYTES] == EncodeFixed64(|x|) && Prefixed(x)[WORD_BYTES..] == x;
    }
  }

  /** The buffer holds b from one offset up to another. */
  predicate Holds(s: seq<byte>, at: nat, next: nat, b: seq<byte>) {
    next == at + |b| && next <= |s| && s[at..next] == b
  }

  lemma HoldsSplit(s: seq<byte>, at: nat, a: seq<byte>, b: seq<byte>)
    ensures Holds(s, at, at + |a| + |b|, a + b) <==> Holds(s, at, at + |a|, a) && Holds(s, at + |a|, at + |a| + |b|, b)
  {
    var mid, next := at + |a|, at + |a| + |b|;
    if next <= |s| {
      assert s[at..next] == s[at..mid] + s[mid..next];
      assert s[at..next][..|a|] == s[at..mid] && s[at..next][|a|..] == s[mid..next];
      assert (a + b)[..|a|] == a && (a + b)[|a|..] == b;
    }
  }

  /** What a string reader took, a writer would have put there. */
  lemma TakenString(s: seq<byte>, at: nat)
    ensures var r := TakeString(s, at); r.Some? ==> |r.value.0| < WORDS && Holds(s, at, r.value.1, Prefixed(r.value.0))
  {
    hide DecodeFixed64, EncodeFixed64;
    var r := TakeString(s, at);
    if r.Some? { TakeStringIff(s, at, r.value.0); }
  }

  lemma TakenPair(s: seq<byte>, at: nat)
    ensures var r := TakePair(s, at);
            r.Some? ==> |r.value.0.key| < WORDS && |r.value.0.value| < WORDS
                        && Holds(s, at, r.value.1, Prefixed(r.value.0.key) + Prefixed(r.value.0.value))
  {
    hide TakeString, Holds, Prefixed;
    var key := TakeString(s, at);
    if key.Some? {
      TakenString(s, at);
      TakenString(s, key.value.1);
      var value := TakeString(s, key.value.1);
      if value.Some? {
        HoldsJoin(s, at, key.value.1, value.value.1, Prefixed(key.value.0), Prefixed(value.value.0));
      }
    }
  }

  lemma HoldsJoin(s: seq<byte>, at: nat, mid: nat, next: nat, a: seq<byte>, b: seq<byte>)
    requires Holds(s, at, mid, a) && Holds(s, mid, next, b)
    ensures Holds(s, at, next, a + b)
  {
    HoldsSplit(s, at, a, b);
  }

  /** Whatever buffer is parsed, the part that was read is the serialised form of
      the pairs it gave. */
  lemma {:induction false} TakenPairs(s: seq<byte>, at: nat, n: nat)
    requires at <= |s|
    ensures var r := TakePairs(s, at, n); r.Some? ==> Holds(s, at, r.value.1, Pairs(r.value.0))
    decreases n
  {
    hide TakePair, Holds, Prefixed;
    var r := TakePairs(s, at, n);
    if n == 0 {
      HoldsNothing(s, at);
    } else if r.Some? {
      var first := TakePair(s, at);
      var rest := TakePairs(s, first.value.1, n - 1);
      TakenPair(s, at);
      TakenPairs(s, first.value.1, n - 1);
      var p := first.value.0;
      assert r.value.0[1..] == rest.value.0;
      HoldsJoin(s, at, first.value.1, r.value.1, Prefixed(p.key) + Prefixed(p.value), Pairs(rest.value.0));
    }
  }

  lemma HoldsNothing(s: seq<byte>, at: nat)
    requires at <= |s|
    ensures Holds(s, at, at, [])
  {
  }

  lemma ParsedIsSerialized(s: seq<byte>)
    ensures Parsed(s).Some? ==>
              var (kvs, next) := Parsed(s).value;
              next == |Serialized(kvs)| && s[..next] == Serialized(kvs)
  {
    if Parsed(s).Some? {
      var (kvs, next) := Parsed(s).value;
      TakenPairs(s, WORD_BYTES, DecodeFixed64(s, 0));
      assert s[..next] == s[..WORD_BYTES] + s[WORD_BYTES..next];
      BytesPrintBack(s[0..WORD_BYTES]);
    }
  }

  lemma {:induction false} PairsTaken(s: seq<byte>, at: nat, kvs: seq<KVPair>)
    requires forall i :: 0 <= i < |kvs| ==> |kvs[i].key| < WORDS && |kvs[i].value| < WORDS
    requires Holds(s, at, at + |Pairs(kvs)|, Pairs(kvs))
    ensures TakePairs(s, at, |kvs|) == Some((kvs, at + |Pairs(kvs)|))
    decreases |kvs|
  {
    hide TakeString, Holds, Prefixed;
    if kvs != [] {
      var k, v := Prefixed(kvs[0].key), Prefixed(kvs[0].value);
      assert Pairs(kvs) == (k + v) + Pairs(kvs[1..]);
      HoldsSplit(s, at, k + v, Pairs(kvs[1..]));
      HoldsSplit(s, at, k, v);
      StringTaken(s, at, kvs[0].key);
      StringTaken(s, at + |k|, kvs[0].value);
      PairsTaken(s, at + |k + v|, kvs[1..]);
      assert kvs == [kvs[0]] + kvs[1..];
    }
  }

  lemma StringTaken(s: seq<byte>, at: nat, x: seq<byte>)
    requires |x| < WORDS && Holds(s, at, at + |Prefixed(x)|, Prefixed(x))
    ensures TakeString(s, at) == Some((x, at + |Prefixed(x)|))
  {
    hide Prefixed, TakeString;
    TakeStringIff(s, at, x);
  }

  /** Parsing a serialised list gives the list, and stops at the end of its
      bytes whatever follows them. */
  lemma SerializedIsParsed(kvs: seq<KVPair>, after: seq<byte>)
    requires Encodable(kvs)
    ensures Parsed(Serialized(kvs) + after) == Some((kvs, |Serialized(kvs)|))
  {
    hide LowBytes, FromBytes, TakePairs;
    var s := Serialized(kvs) + after;
    WordRange();
    BytesReadBack(|kvs|, WORD_BYTES);
    assert s[0..WORD_BYTES] == EncodeFixed64(|kvs|);
    assert s[WORD_BYTES..|Serialized(kvs)|] == Pairs(kvs);
    PairsTaken(s, WORD_BYTES, kvs);
  }

  // ----- what the bytes are -----

  /** Little-endian: the i-th byte is the i-th group of eight bits. */
  lemma {:induction false} LittleEndian(v: nat, n: nat, i: nat)
    requires i < n
    ensures LowBytes(v, n)[i] == Shr(v, 8 * i) % 256
    decreases i
  {
    hide Shr;
    if i == 0 {
      ShrNothing(v);
    } else {
      LittleEndian(v / 256, n - 1, i - 1);
      Shr8(v);
      ShrShr(v, 8, 8 * (i - 1));
    }
  }

  /** Where pair i begins, behind the pair count. */
  function PairOffset(kvs: seq<KVPair>, i: nat): nat
    requires i <= |kvs|
    decreases i
  {
    if i == 0 then 0 else 16 + |kvs[0].key| + |kvs[0].value| + PairOffset(kvs[1..], i - 1)
  }

  /** The serialised form holds the pair count and, for each pair in turn, the length
      of the key, the key, the length of the value, the value, and nothing else. */
  lemma Layout(kvs: seq<KVPair>, i: nat)
    requires i < |kvs|
    ensures var s, at := Serialized(kvs), 8 + PairOffset(kvs, i);
            && |s| == 8 + PairOffset(kvs, |kvs|) && Holds(s, 0, 8, EncodeFixed64(|kvs|))
            && PairAt(s, at, kvs[i])
  {
    hide EncodeFixed64, Pairs, Prefixed, PairOffset;
    var s := Serialized(kvs);
    HoldsAll(s);
    HoldsSplit(s, 0, EncodeFixed64(|kvs|), Pairs(kvs));
    PairsLayout(s, 8, kvs, i);
  }

  predicate PairAt(s: seq<byte>, at: nat, p: KVPair) {
    var key, val := at + 8, at + 16 + |p.key|;
    && Holds(s, at, key, EncodeFixed64(|p.key|)) && Holds(s, key, key + |p.key|, p.key)
    && Holds(s, key + |p.key|, val, EncodeFixed64(|p.value|)) && Holds(s, val, val + |p.value|, p.value)
  }

  lemma HoldsAll(s: seq<byte>)
    ensures Holds(s, 0, |s|, s)
  {
  }

  lemma {:induction false} PairsLayout(s: seq<byte>, at: nat, kvs: seq<KVPair>, i: nat)
    requires i < |kvs| && Holds(s, at, at + |Pairs(kvs)|, Pairs(kvs))
    ensures PairAt(s, at + PairOffset(kvs, i), kvs[i]) && |Pairs(kvs)| == PairOffset(kvs, |kvs|)
    decreases i
  {
    hide EncodeFixed64, Holds;
    PairsLength(kvs);
    var k, v := Prefixed(kvs[0].key), Prefixed(kvs[0].value);
    assert Pairs(kvs) == (k + v) + Pairs(kvs[1..]);
    HoldsSplit(s, at, k + v, Pairs(kvs[1..]));
    if i > 0 {
      PairsLayout(s, at + |k + v|, kvs[1..], i - 1);
    } else {
      HoldsSplit(s, at, k, v);
      HoldsSplit(s, at, EncodeFixed64(|kvs[0].key|), kvs[0].key);
      HoldsSplit(s, at + |k|, EncodeFixed64(|kvs[0].value|), kvs[0].value);
    }
  }

  lemma {:induction false} PairsLength(kvs: seq<KVPair>)
    ensures |Pairs(kvs)| == PairOffset(kvs, |kvs|)
    decreases |kvs|
  {
    hide EncodeFixed64;
    if kvs != [] { PairsLength(kvs[1..]); }
  }

  // ----- the loops -----

  method SerializeValues(kvs: seq<KVPair>) returns (value: seq<byte>)
    requires Encodable(kvs)
    ensures value == Serialized(kvs)
  {
    hide EncodeFixed64;
    value := [];
    value := value + EncodeFixed64(|kvs|);
    assert kvs[0..] == kvs;
    for i := 0 to |kvs|
      invariant value + Pairs(kvs[i..]) == Serialized(kvs)
    {
      ghost var before := value;
      value := value + EncodeFixed64(|kvs[i].key|);
      value := value + kvs[i].key;
      value := value + EncodeFixed64(|kvs[i].value|);
      value := value + kvs[i].value;
      assert value == before + (Prefixed(kvs[i].key) + Prefixed(kvs[i].value));
      assert kvs[i..][1..] == kvs[i + 1..];
    }
  }

  const COUNTER_RANGE := 0x1_0000_0000

  /** What the reader makes of any buffer: None where it runs off the end. Its
      32-bit counter never reaches a pair count of 2^32 or more, so that such a
      buffer is always read past its end. */
  function ReadBack(value: seq<byte>): (r: Option<(seq<KVPair>, nat)>)
  {
    var r := Parsed(value);
    if r.Some? && |r.value.0| >= COUNTER_RANGE then None else r
  }

  /** Reads of a buffer that does not hold what it says go beyond it, which C leaves
      undefined; there the method gives up with None. */
  method DeSerializeValues(value: seq<byte>, kvs: seq<KVPair>) returns (r: Option<(seq<KVPair>, nat)>)
    ensures r == if ReadBack(value).None? then None else Some((kvs + ReadBack(value).value.0, ReadBack(value).value.1))
  {
    hide DecodeFixed64, TakePair;
    if |value| < WORD_BYTES {
      return None;
    }
    var kvNum := DecodeFixed64(value, 0);
    var offset, i, read := WORD_BYTES, 0, kvs;
    while i < kvNum
      invariant WORD_BYTES <= offset <= |value| && 0 <= i < COUNTER_RANGE
      invariant kvNum < COUNTER_RANGE ==> i <= kvNum
      invariant kvNum < COUNTER_RANGE ==> Ahead(value, kvs, kvNum, read, offset, kvNum - i)
      decreases |value| - offset
    {
      var pair := ReadPair(value, offset);
      if pair.None? {
        return None;
      }
      read, offset := read + [pair.value.0], pair.value.1;
      i := (i + 1) % COUNTER_RANGE;
    }
    assert read + [] == read;
    return Some((read, offset));
  }

  /** With n pairs still to come, what was read and what is ahead make up the whole. */
  ghost predicate Ahead(value: seq<byte>, kvs: seq<KVPair>, kvNum: nat, read: seq<KVPair>, offset: nat, n: nat)
    requires WORD_BYTES <= |value| && offset <= |value|
  {
    var all, rest := TakePairs(value, WORD_BYTES, kvNum), TakePairs(value, offset, n);
    && all.Some? == rest.Some?
    && (all.Some? ==> kvs + all.value.0 == read + rest.value.0 && all.value.1 == rest.value.1)
  }

  /** The body of the loop. */
  method ReadPair(value: seq<byte>, start: nat) returns (r: Option<(KVPair, nat)>)
    ensures r == TakePair(value, start)
  {
    hide DecodeFixed64;
    var offset := start;
    if offset + 8 > |value| {
      return None;
    }
    var keySize := DecodeFixed64(value, offset);
    offset := offset + 8;
    if offset + keySize > |value| {
      return None;
    }
    var key := value[offset..offset + keySize];
    offset := offset + keySize;
    if offset + 8 > |value| {
      return None;
    }
    var valueSize := DecodeFixed64(value, offset);
    offset := offset + 8;
    if offset + valueSize > |value| {
      return None;
    }
    var val := value[offset..offset + valueSize];
    offset := offset + valueSize;
    return Some((KVPair(key, val), offset));
  }

  /** A buffer that says 2^32 pairs or more is never read to its end. */
  lemma TooManyNeverEnd(value: seq<byte>)
    requires |value| >= WORD_BYTES && DecodeFixed64(value, 0) >= 0x1_0000_0000
    ensures ReadBack(value) == None
  {
    hide DecodeFixed64, TakePairs;
  }

  /** Reading back a written list gives the list and ends at the buffer's end. */
  lemma ReadBackSerialized(kvs: seq<KVPair>)
    requires Encodable(kvs)
    ensures ReadBack(Serialized(kvs)) == Some((kvs, |Serialized(kvs)|))
  {
    hide Serialized, Parsed;
    SerializedIsParsed(kvs, []);
    assert Serialized(kvs) + [] == Serialized(kvs);
  }
}
