/** The 9-byte ZigZag LEB128 variant of hdr_encoding.c: seven bits a byte, low
    bits first, except that a ninth byte holds the last eight bits. */
module ZigZag {
  import opened Basics
  import opened Bits

  const MAX_BYTES_LEB128 := 9

  predicate IsInt64(v: int) {
    INT64_MIN <= v <= INT64_MAX
  }

  /** Exclusive or of a 64-bit word with copies of one bit. */
  function XorFill(x: int, bit: bool): int {
    if bit then WORDS - 1 - x else x
  }

  /** (v << 1) ^ (v >> 63): small magnitudes of either sign become small naturals. */
  function Fold(v: int): (z: nat)
    requires IsInt64(v)
    ensures z < WORDS && z == if v >= 0 then 2 * v else -2 * v - 1
  {
    XorFill((2 * v) % WORDS, v < 0)
  }

  /** (z >> 1) ^ -(z & 1), read as a signed word. */
  function Unfold(z: nat): (v: int)
    requires z < WORDS
    ensures IsInt64(v) && v == if z % 2 == 0 then z / 2 else -(z / 2) - 1
  {
    Wrap64(XorFill(z / 2, z % 2 == 1))
  }

  lemma FoldUnfold(v: int, z: nat)
    requires IsInt64(v) && z < WORDS
    ensures Fold(v) == z <==> v == Unfold(z)
  {
    hide XorFill, Wrap64;
  }

  /** How many values are left to write at a level of the nested ifs: 2^(64 - 7 level). */
  function Capacity(level: nat): (n: nat)
    requires level <= 8
    ensures n >= 256
    decreases 8 - level
  {
    if level == 8 then 256 else 128 * Capacity(level + 1)
  }

  lemma Capacities()
    ensures Capacity(0) == WORDS
  {
    assert Capacity(7) == 128 * Capacity(8);
    assert Capacity(6) == 128 * Capacity(7);
    assert Capacity(5) == 128 * Capacity(6);
    assert Capacity(4) == 128 * Capacity(5);
    assert Capacity(3) == 128 * Capacity(4);
    assert Capacity(2) == 128 * Capacity(3);
    assert Capacity(1) == 128 * Capacity(2);
    assert Capacity(0) == 128 * Capacity(1);
  }

  /** The bytes from one level of the nested ifs on. */
  function Pack(z: nat, level: nat): (bytes: seq<byte>)
    requires level <= 8 && z < Capacity(level)
    ensures 1 <= |bytes| <= 9 - level
    decreases 8 - level
  {
    if level == 8 || z < 128 then [z]
    else [z % 128 + 128] + Pack(z / 128, level + 1)
  }

  /** Reads from one level of the nested ifs on: the value and the bytes read. */
  function Unpack(b: seq<byte>, at: nat, level: nat): (r: (nat, nat))
    requires level <= 8 && at + 9 - level <= |b|
    ensures r.0 < Capacity(level) && 1 <= r.1 <= 9 - level
    decreases 8 - level
  {
    if level == 8 || b[at] < 128 then (b[at], 1)
    else
      var (z, n) := Unpack(b, at + 1, level + 1);
      (b[at] % 128 + 128 * z, n + 1)
  }

  /** Whatever follows the packed bytes, unpacking returns the value and stops
      at their end. */
  lemma {:induction false} UnpackPack(b: seq<byte>, at: nat, z: nat, level: nat)
    requires level <= 8 && at + 9 - level <= |b| && z < Capacity(level)
    requires Pack(z, level) <= b[at..]
    ensures Unpack(b, at, level) == (z, |Pack(z, level)|)
    decreases 8 - level
  {
    hide *;
    UnpackStep(b, at, level);
    assert b[at] == b[at..][0] == Pack(z, level)[0];
    if level == 8 || z < 128 {
      PackOne(z, level);
    } else {
      PackMore(z, level);
      assert b[at + 1..] == b[at..][1..];
      UnpackPack(b, at + 1, z / 128, level + 1);
    }
  }

  lemma PackMore(z: nat, level: nat)
    requires level < 8 && 128 <= z < Capacity(level)
    ensures z / 128 < Capacity(level + 1) && z == z % 128 + 128 * (z / 128)
    ensures (z % 128 + 128) % 128 == z % 128
    ensures Pack(z, level) == [z % 128 + 128] + Pack(z / 128, level + 1)
  {
  }

  lemma {:induction false} LastByteCounts(b: seq<byte>, at: nat, level: nat)
    requires level <= 8 && at + 9 - level <= |b|
    ensures var (z, n) := Unpack(b, at, level);
            b[at + n - 1] != 0 ==> z > 0
    decreases 8 - level
  {
    hide Capacity;
    if level < 8 && b[at] >= 128 { LastByteCounts(b, at + 1, level + 1); }
  }

  /** Packing what was unpacked gives the bytes read, exactly when they do not
      end in a redundant zero byte. */
  lemma {:induction false} PackUnpack(b: seq<byte>, at: nat, level: nat)
    requires level <= 8 && at + 9 - level <= |b|
    ensures var (z, n) := Unpack(b, at, level);
            Pack(z, level) == b[at..at + n] <==> n == 1 || b[at + n - 1] != 0
    decreases 8 - level
  {
    hide *;
    UnpackStep(b, at, level);
    if level < 8 && b[at] >= 128 {
      var (z, n) := Unpack(b, at + 1, level + 1);
      var inner := b[at + 1..at + 1 + n];
      PackUnpack(b, at + 1, level + 1);
      LastByteCounts(b, at + 1, level + 1);
      UnpackStep(b, at + 1, level + 1);
      PackUnpackStep(b[at], inner, z, level);
      assert b[at..at + 1 + n] == [b[at]] + inner;
    } else {
      PackOne(b[at], level);
      assert b[at..at + 1] == [b[at]];
    }
  }

  lemma PackOne(z: nat, level: nat)
    requires level <= 8 && z < Capacity(level) && (level == 8 || z < 128)
    ensures z < 256 && Pack(z, level) == [z]
  {
  }

  lemma UnpackStep(b: seq<byte>, at: nat, level: nat)
    requires level <= 8 && at + 9 - level <= |b|
    ensures level == 8 || b[at] < 128 <==> Unpack(b, at, level).1 == 1
    ensures level == 8 || b[at] < 128 ==> Unpack(b, at, level).0 == b[at]
    ensures level < 8 && b[at] >= 128 ==>
              var (z, n) := Unpack(b, at + 1, level + 1);
              Unpack(b, at, level) == (b[at] % 128 + 128 * z, n + 1)
  {
  }

  lemma PackUnpackStep(x: byte, inner: seq<byte>, z: nat, level: nat)
    requires level < 8 && x >= 128 && z < Capacity(level + 1) && inner != []
    requires Pack(z, level + 1) == inner <==> |inner| == 1 || inner[|inner| - 1] != 0
    requires (inner[|inner| - 1] != 0 ==> z > 0) && (|inner| == 1 ==> z == inner[0])
    ensures x % 128 + 128 * z < Capacity(level)
    ensures Pack(x % 128 + 128 * z, level) == [x] + inner <==> inner[|inner| - 1] != 0
  {
    if z > 0 {
      PackStep(x, z, level);
      ConsInjective(x, Pack(z, level + 1), inner);
    } else {
      PackOne(x % 128, level);
    }
  }

  lemma PackStep(x: byte, z: nat, level: nat)
    requires level < 8 && x >= 128 && 0 < z < Capacity(level + 1)
    ensures x % 128 + 128 * z < Capacity(level)
    ensures Pack(x % 128 + 128 * z, level) == [x] + Pack(z, level + 1)
  {
    assert (x % 128 + 128 * z) / 128 == z;
  }

  lemma ConsInjective(x: byte, s: seq<byte>, t: seq<byte>)
    ensures [x] + s == [x] + t <==> s == t
  {
    assert s == ([x] + s)[1..] && t == ([x] + t)[1..];
  }

  function EncodeI64(v: int): (bytes: seq<byte>)
    requires IsInt64(v)
    ensures 1 <= |bytes| <= MAX_BYTES_LEB128
  {
    Capacities();
    Pack(Fold(v), 0)
  }

  /** zig_zag_decode_i64: the value and how many bytes it took. */
  function DecodeI64(b: seq<byte>, at: nat): (r: (int, nat))
    requires at + MAX_BYTES_LEB128 <= |b|
    ensures IsInt64(r.0) && 1 <= r.1 <= MAX_BYTES_LEB128
  {
    var (z, n) := Unpack(b, at, 0);
    Capacities();
    (Unfold(z), n)
  }

  /** The i-th byte of a packed number is its i-th group of seven bits, with the high
      bit set while more follow; the ninth byte is the last eight bits. A byte
      is the last one as soon as nothing is left above it. */
  lemma {:induction false} PackedByte(z: nat, level: nat, i: nat)
    requires level <= 8 && z < Capacity(level) && i < |Pack(z, level)|
    ensures i < |Pack(z, level)| - 1 ==> Pack(z, level)[i] == 128 + Shr(z, 7 * i) % 128 && Shr(z, 7 * i) >= 128
    ensures i == |Pack(z, level)| - 1 ==>
              Pack(z, level)[i] == Shr(z, 7 * i) && (level + i == 8 || Shr(z, 7 * i) < 128)
    decreases i
  {
    hide Shr, Pack, Capacity;
    ShrNothing(z);
    if level == 8 || z < 128 {
      PackOne(z, level);
    } else {
      PackMore(z, level);
      if i > 0 {
        PackedByte(z / 128, level + 1, i - 1);
        Shr7(z);
        ShrShr(z, 7, 7 * (i - 1));
      }
    }
  }

  /** Packed bytes cut short and followed by a 0 byte: the reader goes one byte past
      the cut, and the low bit, which tells the sign, is kept. */
  lemma {:induction false} UnpackCut(b: seq<byte>, at: nat, z: nat, level: nat, cut: nat)
    requires level <= 8 && at + 9 - level <= |b| && z < Capacity(level) && 1 <= cut < |Pack(z, level)|
    requires b[at..at + cut] == Pack(z, level)[..cut] && b[at + cut] == 0
    ensures Unpack(b, at, level).1 == cut + 1 && Unpack(b, at, level).0 % 2 == z % 2
    decreases cut
  {
    hide *;
    assert b[at] == b[at..at + cut][0] == Pack(z, level)[0];
    if level == 8 || z < 128 {
      PackOne(z, level);
      assert false;
    } else {
      PackMore(z, level);
      UnpackStep(b, at, level);
      UnpackStep(b, at + 1, level + 1);
      LowBit(z, Unpack(b, at + 1, level + 1).0);
      if cut > 1 {
        var rest := Pack(z / 128, level + 1);
        assert b[at + 1..at + cut] == b[at..at + cut][1..];
        assert Pack(z, level)[..cut][1..] == rest[..cut - 1];
        UnpackCut(b, at + 1, z / 128, level + 1, cut - 1);
      }
    }
  }

  lemma LowBit(z: nat, y: nat)
    ensures ((z % 128 + 128) % 128 + 128 * y) % 2 == z % 2
  {
    var m, q := z % 128, z / 128;
    assert z == m + 2 * (64 * q) && m + 128 * y == m + 2 * (64 * y) && (m + 128) % 128 == m;
    hide *;
    EvenPart(m, 64 * q);
    EvenPart(m, 64 * y);
  }

  lemma EvenPart(m: nat, k: nat)
    ensures (m + 2 * k) % 2 == m % 2
  {
  }

  /** A number that is not negative, cut short and followed by a 0 byte, reads as one
      that is not negative and takes a byte too many. */
  lemma DecodeCut(b: seq<byte>, at: nat, v: nat, cut: nat)
    requires IsInt64(v) && at + MAX_BYTES_LEB128 <= |b| && 1 <= cut < |EncodeI64(v)|
    requires b[at..at + cut] == EncodeI64(v)[..cut] && b[at + cut] == 0
    ensures DecodeI64(b, at).0 >= 0 && DecodeI64(b, at).1 == cut + 1
  {
    hide Pack, Unpack, Capacity;
    Capacities();
    UnpackCut(b, at, Fold(v), 0, cut);
  }

  /** Some numbers and their bytes. */
  lemma EncodedExamples()
    ensures EncodeI64(0) == [0] && EncodeI64(-1) == [1] && EncodeI64(1) == [2] && EncodeI64(-64) == [127]
    ensures EncodeI64(64) == [128, 1] && EncodeI64(150) == [172, 2]
  {
    assert Fold(64) == 128 && Fold(150) == 300;
    Capacities();
    hide Fold, Capacity;
    assert 128 < Capacity(0) && 300 < Capacity(0);
    PackMore(128, 0);
    PackMore(300, 0);
    PackOne(1, 1);
    PackOne(2, 1);
  }

  /** Decoding inverts encoding, in value and in length, whatever bytes follow. */
  lemma DecodeEncode(v: int, before: seq<byte>, after: seq<byte>)
    requires IsInt64(v) && MAX_BYTES_LEB128 <= |EncodeI64(v) + after|
    ensures DecodeI64(before + EncodeI64(v) + after, |before|) == (v, |EncodeI64(v)|)
  {
    hide Pack, Unpack, Capacity;
    Capacities();
    var b := before + EncodeI64(v) + after;
    FoldUnfold(v, Fold(v));
    assert b[|before|..] == EncodeI64(v) + after;
    UnpackPack(b, |before|, Fold(v), 0);
  }

  /** The converse: the bytes read are the encoding of the value read, exactly
      when they do not end in a redundant zero byte. */
  lemma EncodeDecode(b: seq<byte>, at: nat)
    requires at + MAX_BYTES_LEB128 <= |b|
    ensures var (v, n) := DecodeI64(b, at);
            EncodeI64(v) == b[at..at + n] <==> n == 1 || b[at + n - 1] != 0
  {
    hide Pack, Unpack, Capacity;
    Capacities();
    var (z, n) := Unpack(b, at, 0);
    FoldUnfold(Unfold(z), z);
    PackUnpack(b, at, 0);
  }

  /** zig_zag_encode_i64, writing at buffer[at..]. */
  method WriteI64(buffer: array<byte>, at: nat, v: int) returns (bytesWritten: nat)
    requires IsInt64(v) && at + |EncodeI64(v)| <= buffer.Length
    modifies buffer
    ensures bytesWritten == |EncodeI64(v)|
    ensures buffer[..] == old(buffer[..at]) + EncodeI64(v) + old(buffer[at + |EncodeI64(v)|..])
  {
    hide Pack, Capacity;
    Capacities();
    bytesWritten := WriteLevel(buffer, at, Fold(v), 0);
  }

  /** One level of the nested ifs and those inside it. */
  method WriteLevel(buffer: array<byte>, at: nat, value: nat, level: nat) returns (written: nat)
    requires level <= 8 && value < Capacity(level)
    requires at + |Pack(value, level)| <= buffer.Length
    modifies buffer
    ensures written == |Pack(value, level)|
    ensures buffer[..] == old(buffer[..at]) + Pack(value, level) + old(buffer[at + |Pack(value, level)|..])
    decreases 8 - level
  {
    if level == 8 || value < 128 {
      buffer[at] := value;
      return 1;
    }
    buffer[at] := value % 128 + 128;
    var inner := WriteLevel(buffer, at + 1, value / 128, level + 1);
    return 1 + inner;
  }
}
