/** Base64 of hdr_encoding.c, section 4 of RFC 4648. Or-ing fields that do not
    overlap is written as addition, shifts by constants as division. */
module Base64 {
  import opened Basics

  const UPPER: string := "ABCDEFGHIJKLMNOPQRSTUVWXYZ"
  const LOWER: string := "abcdefghijklmnopqrstuvwxyz"
  const OTHERS: string := "0123456789+/"

  /** base64_table */
  function Symbol(k: nat): char
    requires k < 64
  {
    if k < 26 then UPPER[k] else if k < 52 then LOWER[k - 26] else OTHERS[k - 52]
  }

  /** from_base_64: padding reads as 0, any other foreign character as EINVAL. */
  function FromBase64(c: char): (k: nat)
    ensures k < 64
  {
    if 'A' <= c <= 'Z' then c as int - 'A' as int
    else if 'a' <= c <= 'z' then c as int - 'a' as int + 26
    else if '0' <= c <= '9' then c as int - '0' as int + 52
    else if c == '+' then 62
    else if c == '/' then 63
    else if c == '=' then 0
    else EINVAL
  }

  predicate InTable(c: char) {
    'A' <= c <= 'Z' || 'a' <= c <= 'z' || '0' <= c <= '9' || c == '+' || c == '/'
  }

  lemma UpperSymbols(k: nat)
    requires k < 26
    ensures UPPER[k] as int == 'A' as int + k
  {
  }

  lemma LowerSymbols(k: nat)
    requires k < 26
    ensures LOWER[k] as int == 'a' as int + k
  {
  }

  lemma OtherSymbols(k: nat)
    requires k < 12
    ensures k < 10 ==> OTHERS[k] as int == '0' as int + k
    ensures k == 10 ==> OTHERS[k] == '+'
    ensures k == 11 ==> OTHERS[k] == '/'
  {
  }

  lemma SymbolReadsBack(k: nat)
    requires k < 64
    ensures InTable(Symbol(k)) && FromBase64(Symbol(k)) == k
  {
    hide UPPER, LOWER, OTHERS;
    if k < 26 {
      UpperSymbols(k);
    } else if k < 52 {
      LowerSymbols(k - 26);
    } else {
      OtherSymbols(k - 52);
    }
  }

  /** Only characters of the table are read as the value they stand for. */
  lemma ReadsBackIff(c: char)
    ensures Symbol(FromBase64(c)) == c <==> InTable(c)
  {
    hide UPPER, LOWER, OTHERS;
    var k := FromBase64(c);
    if k < 26 {
      UpperSymbols(k);
    } else if k < 52 {
      LowerSymbols(k - 26);
    } else {
      OtherSymbols(k - 52);
    }
  }

  // ----- blocks -----

  /** get_base_64 of the four 6-bit fields of a 24-bit value. */
  function Symbols(v: nat): (text: string)
    requires v < 0x1000000
    ensures |text| == 4
  {
    [Symbol(v / 0x40000 % 64), Symbol(v / 0x1000 % 64), Symbol(v / 0x40 % 64), Symbol(v % 64)]
  }

  function Word(a: byte, b: byte, c: byte): (v: nat)
    ensures v < 0x1000000
  {
    a * 0x10000 + b * 0x100 + c
  }

  /** hdr_base64_encode_block */
  function EncodeBlock(a: byte, b: byte, c: byte): (text: string)
    ensures |text| == 4
  {
    Symbols(Word(a, b, c))
  }

  /** hdr_base64_encode_block_pad: one or two bytes left over, or nothing to do. */
  function EncodePad(rest: seq<byte>): (text: string)
    requires |rest| < 3
    ensures |text| == if rest == [] then 0 else 4
  {
    if |rest| == 2 then Symbols(Word(rest[0], rest[1], 0))[..3] + "="
    else if |rest| == 1 then Symbols(Word(rest[0], 0, 0))[..2] + "=="
    else []
  }

  function Fields(c0: char, c1: char, c2: char, c3: char): (v: nat)
    ensures v < 0x1000000
  {
    FromBase64(c0) * 0x40000 + FromBase64(c1) * 0x1000 + FromBase64(c2) * 0x40 + FromBase64(c3)
  }

  function BytesOf(v: nat): (out: seq<byte>)
    ensures |out| == 3
  {
    [v / 0x10000 % 0x100, v / 0x100 % 0x100, v % 0x100]
  }

  /** hdr_base64_decode_block */
  function DecodeBlock(c0: char, c1: char, c2: char, c3: char): (out: seq<byte>)
    ensures |out| == 3
  {
    BytesOf(Fields(c0, c1, c2, c3))
  }

  // ----- whole strings -----

  /** ceil(n / 3) * 4 */
  function EncodedLen(n: nat): (len: nat)
    ensures len % 4 == 0
  {
    (n + 2) / 3 * 4
  }

  function DecodedLen(n: nat): nat {
    n / 4 * 3
  }

  /** A block more of bytes is a block more of text. */
  lemma BlockLengths(n: nat)
    ensures EncodedLen(n + 3) == EncodedLen(n) + 4 && DecodedLen(n + 4) == DecodedLen(n) + 3
    ensures EncodedLen(0) == 0 && EncodedLen(1) == 4 && EncodedLen(2) == 4
    ensures (n > 0 ==> EncodedLen(n) > 0) && (n < 4 ==> DecodedLen(n) == 0)
  {
  }

  function Encoded(s: seq<byte>): (text: string)
    ensures |text| == EncodedLen(|s|)
  {
    BlockLengths(if |s| < 3 then 0 else |s| - 3);
    if |s| < 3 then EncodePad(s) else EncodeBlock(s[0], s[1], s[2]) + Encoded(s[3..])
  }

  /** The whole blocks of a text; the decoder refuses a text with more than those. */
  function Decoded(text: string): (s: seq<byte>)
    ensures |s| == DecodedLen(|text|)
  {
    BlockLengths(if |text| < 4 then 0 else |text| - 4);
    if |text| < 4 then [] else DecodeBlock(text[0], text[1], text[2], text[3]) + Decoded(text[4..])
  }

  /** Four 6-bit fields and the 24-bit value they make up determine each other. */
  lemma SixBitFields(v: nat, k0: nat, k1: nat, k2: nat, k3: nat)
    requires v < 0x1000000 && k0 < 64 && k1 < 64 && k2 < 64 && k3 < 64
    ensures v == k0 * 0x40000 + k1 * 0x1000 + k2 * 0x40 + k3
            <==> k0 == v / 0x40000 % 64 && k1 == v / 0x1000 % 64 && k2 == v / 0x40 % 64 && k3 == v % 64
  {
    SixBitShifts(v);
    var w2 := v / 64;
    var w1 := w2 / 64;
    var w0 := w1 / 64;
    assert w0 < 64;
    SixBits(v, w2, v % 64);
    SixBits(w2, w1, w2 % 64);
    SixBits(w1, w0, w1 % 64);
    if v == k0 * 0x40000 + k1 * 0x1000 + k2 * 0x40 + k3 {
      SixBits(v, k0 * 0x1000 + k1 * 0x40 + k2, k3);
      SixBits(w2, k0 * 0x40 + k1, k2);
      SixBits(w1, k0, k1);
    }
  }

  lemma SixBits(x: nat, q: nat, k: nat)
    requires k < 64
    ensures x == q * 64 + k <==> q == x / 64 && k == x % 64
  {
  }

  lemma SixBitShifts(v: nat)
    ensures v / 0x1000 == v / 64 / 64 && v / 0x40000 == v / 64 / 64 / 64
  {
  }

  lemma FieldsOfSymbols(v: nat)
    requires v < 0x1000000
    ensures var t := Symbols(v);
            && FromBase64(t[0]) == v / 0x40000 % 64 && FromBase64(t[1]) == v / 0x1000 % 64
            && FromBase64(t[2]) == v / 0x40 % 64 && FromBase64(t[3]) == v % 64
    ensures var t := Symbols(v); Fields(t[0], t[1], t[2], t[3]) == v
  {
    hide Symbol, FromBase64;
    SymbolReadsBack(v / 0x40000 % 64);
    SymbolReadsBack(v / 0x1000 % 64);
    SymbolReadsBack(v / 0x40 % 64);
    SymbolReadsBack(v % 64);
    SixBitFields(v, v / 0x40000 % 64, v / 0x1000 % 64, v / 0x40 % 64, v % 64);
  }

  /** Trailing fields that are zero may be written as padding. */
  lemma PaddedFields(v: nat)
    requires v < 0x1000000
    ensures v % 64 == 0 ==> var t := Symbols(v); Fields(t[0], t[1], t[2], '=') == v
    ensures v % 64 == 0 && v / 0x40 % 64 == 0 ==> var t := Symbols(v); Fields(t[0], t[1], '=', '=') == v
  {
    assert FromBase64('=') == 0;
    hide Symbol, FromBase64, Symbols;
    FieldsOfSymbols(v);
  }

  lemma BytesOfWord(a: byte, b: byte, c: byte)
    ensures BytesOf(Word(a, b, c)) == [a, b, c]
  {
    var v := Word(a, b, c);
    var w := v / 0x100;
    assert w == a * 0x100 + b;
    assert v / 0x10000 == w / 0x100;
    assert w / 0x100 == a;
  }

  /** The zero bytes that fill up the last block. */
  function Padding(n: nat): (zeros: seq<byte>) {
    if n % 3 == 0 then [] else if n % 3 == 1 then [0, 0] else [0]
  }

  /** Decoding an encoding gives the input, followed only by the zero bytes that
      fill its last block. */
  lemma {:induction false} DecodedEncoded(s: seq<byte>)
    ensures Decoded(Encoded(s)) == s + Padding(|s|)
    decreases |s|
  {
    hide EncodeBlock, DecodeBlock, EncodePad, EncodedLen, DecodedLen, Padding;
    if |s| >= 3 {
      BlockReadsBack(s[0], s[1], s[2]);
      DecodedEncoded(s[3..]);
      assert Encoded(s)[4..] == Encoded(s[3..]);
      assert s == [s[0], s[1], s[2]] + s[3..];
      assert Padding(|s|) == Padding(|s[3..]|) by { PaddingStep(|s| - 3); }
    } else if s == [] {
      PaddingStep(0);
    } else if s != [] {
      PadReadsBack(s);
    }
  }

  lemma BlockReadsBack(a: byte, b: byte, c: byte)
    ensures var t := EncodeBlock(a, b, c); DecodeBlock(t[0], t[1], t[2], t[3]) == [a, b, c]
  {
    hide Symbols, Fields, BytesOf, Word;
    FieldsOfSymbols(Word(a, b, c));
    BytesOfWord(a, b, c);
  }

  lemma PaddingStep(n: nat)
    ensures Padding(n + 3) == Padding(n) && Padding(0) == []
  {
  }

  lemma LowFieldsZero(a: byte, b: byte)
    ensures Word(a, b, 0) % 64 == 0
    ensures b == 0 ==> Word(a, b, 0) / 0x40 % 64 == 0
  {
    assert Word(a, b, 0) == 64 * (a * 0x400 + b * 4);
    assert b == 0 ==> Word(a, b, 0) / 0x40 == 64 * (a * 16);
  }

  lemma PadReadsBack(s: seq<byte>)
    requires 1 <= |s| < 3
    ensures Decoded(EncodePad(s)) == s + Padding(|s|)
  {
    hide Symbols, Fields, BytesOf;
    var b: byte := if |s| == 2 then s[1] else 0;
    var v, text := Word(s[0], b, 0), EncodePad(s);
    LowFieldsZero(s[0], b);
    hide Word;
    PaddedFields(v);
    BytesOfWord(s[0], b, 0);
    assert Fields(text[0], text[1], text[2], text[3]) == v;
    assert text[4..] == [];
  }

  lemma SymbolsOfFields(c0: char, c1: char, c2: char, c3: char)
    ensures Symbols(Fields(c0, c1, c2, c3)) == [c0, c1, c2, c3]
            <==> InTable(c0) && InTable(c1) && InTable(c2) && InTable(c3)
  {
    hide Symbol, FromBase64, InTable;
    ReadsBackIff(c0);
    ReadsBackIff(c1);
    ReadsBackIff(c2);
    ReadsBackIff(c3);
    var k0, k1, k2, k3 := FromBase64(c0), FromBase64(c1), FromBase64(c2), FromBase64(c3);
    SixBitFields(Fields(c0, c1, c2, c3), k0, k1, k2, k3);
  }

  /** Encoding what was decoded gives the text back exactly when every character
      is one of the 64: padding and foreign characters are read as if they were
      characters of the table. */
  lemma {:induction false} EncodedDecodedIff(text: string)
    requires |text| % 4 == 0
    ensures Encoded(Decoded(text)) == text <==> forall i :: 0 <= i < |text| ==> InTable(text[i])
    decreases |text|
  {
    hide Symbols, Fields, BytesOf, Word, InTable;
    if text != [] {
      var v, s := Fields(text[0], text[1], text[2], text[3]), Decoded(text);
      WordOfBytes(v);
      SymbolsOfFields(text[0], text[1], text[2], text[3]);
      EncodedDecodedIff(text[4..]);
      assert s[3..] == Decoded(text[4..]) && s[..3] == BytesOf(v);
      assert Encoded(s) == Symbols(v) + Encoded(Decoded(text[4..]));
      SplitEqual(text, Symbols(v), Encoded(Decoded(text[4..])));
      assert forall i :: 4 <= i < |text| ==> text[i] == text[4..][i - 4];
    }
  }

  // ----- what the text is, without the way it is made -----

  /** How many characters of padding an input of n bytes needs. */
  function PadCount(n: nat): (k: nat)
    ensures k < 3
  {
    (3 - n % 3) % 3
  }

  lemma PadCountStep(n: nat)
    ensures PadCount(n + 3) == PadCount(n) && PadCount(0) == 0 && PadCount(1) == 2 && PadCount(2) == 1
  {
  }

  /** The last characters, as many as bytes are missing from a multiple of 3, and
      no others are padding. */
  lemma {:induction false} PaddingIsAtTheEnd(s: seq<byte>, i: nat)
    requires i < |Encoded(s)|
    ensures Encoded(s)[i] == '=' <==> i >= |Encoded(s)| - PadCount(|s|)
    decreases |s|
  {
    hide PadCount, EncodedLen, Symbols, EncodeBlock, EncodePad;
    PadCountStep(if |s| >= 3 then |s| - 3 else 0);
    if |s| >= 3 {
      BlockLengths(|s| - 3);
      if i < 4 {
        BlockNotPadding(s[0], s[1], s[2], i);
        BlockLengths(0);
      } else {
        PaddingIsAtTheEnd(s[3..], i - 4);
      }
    } else {
      PadAtTheEnd(s, i);
    }
  }

  lemma BlockNotPadding(a: byte, b: byte, c: byte, i: nat)
    requires i < 4
    ensures EncodeBlock(a, b, c)[i] != '='
  {
    hide Word;
    SymbolsNotPadding(Word(a, b, c), i);
  }

  lemma SymbolsNotPadding(v: nat, i: nat)
    requires v < 0x1000000 && i < 4
    ensures Symbols(v)[i] != '='
  {
    hide Symbol;
    SymbolReadsBack(v / 0x40000 % 64);
    SymbolReadsBack(v / 0x1000 % 64);
    SymbolReadsBack(v / 0x40 % 64);
    SymbolReadsBack(v % 64);
  }

  lemma PadAtTheEnd(rest: seq<byte>, i: nat)
    requires 1 <= |rest| < 3 && i < 4
    ensures EncodePad(rest)[i] == '=' <==> i >= 4 - (3 - |rest|)
  {
    hide Symbols, Word;
    var v := Word(rest[0], if |rest| == 2 then rest[1] else 0, 0);
    SymbolsNotPadding(v, i);
  }

  /** The k-th byte, 0 where there is none. */
  function ByteAt(s: seq<byte>, k: nat): byte {
    if k < |s| then s[k] else 0
  }

  /** Each four characters stand for three bytes, the first byte highest: section 4
      of RFC 4648. */
  lemma {:induction false} GroupsOfThree(s: seq<byte>, i: nat)
    requires 4 * i + 3 < |Encoded(s)|
    ensures var t := Encoded(s);
            Fields(t[4 * i], t[4 * i + 1], t[4 * i + 2], t[4 * i + 3])
            == ByteAt(s, 3 * i) * 0x10000 + ByteAt(s, 3 * i + 1) * 0x100 + ByteAt(s, 3 * i + 2)
    decreases i
  {
    hide EncodedLen, Symbols, Fields;
    if |s| < 3 {
      BlockLengths(|s|);
      PadFields(s);
    } else if i == 0 {
      FieldsOfSymbols(Word(s[0], s[1], s[2]));
    } else {
      BlockLengths(|s| - 3);
      GroupsOfThree(s[3..], i - 1);
      var t, t' := Encoded(s), Encoded(s[3..]);
      assert t[4..] == t';
      assert forall k :: 4 <= k < |t| ==> t[k] == t'[k - 4];
    }
  }

  lemma PadFields(s: seq<byte>)
    requires 1 <= |s| < 3
    ensures var t := EncodePad(s);
            Fields(t[0], t[1], t[2], t[3]) == Word(s[0], ByteAt(s, 1), 0)
  {
    hide Symbols, Fields;
    var b: byte := ByteAt(s, 1);
    LowFieldsZero(s[0], b);
    hide Word;
    PaddedFields(Word(s[0], b, 0));
  }

  /** Test vectors of section 10 of RFC 4648. */
  lemma TestVectors()
    ensures Encoded([]) == "" && Encoded([102]) == "Zg==" && Encoded([102, 111]) == "Zm8="
    ensures Encoded([102, 111, 111]) == "Zm9v"
  {
    hide EncodedLen, Symbols, Word;
    VectorTexts();
    var one: seq<byte>, two: seq<byte>, three: seq<byte> := [102], [102, 111], [102, 111, 111];
    EncodedEnd(one);
    EncodedEnd(two);
    EncodedEnd([]);
    assert three[0..] == three && three[3..] == [];
    EncodedStep(three, 0);
    hide Encoded;
    assert EncodePad(one) == "Zg==" && EncodePad(two) == "Zm8=";
  }

  lemma VectorTexts()
    ensures Symbols(Word(102, 0, 0))[..2] == "Zg" && Symbols(Word(102, 111, 0))[..3] == "Zm8"
    ensures Symbols(Word(102, 111, 111)) == "Zm9v"
  {
    VectorSymbols();
    hide Symbol;
    assert Word(102, 0, 0) == 0x660000 && Word(102, 111, 0) == 0x666F00 && Word(102, 111, 111) == 0x666F6F;
  }

  lemma VectorSymbols()
    ensures Symbol(25) == 'Z' && Symbol(32) == 'g' && Symbol(38) == 'm' && Symbol(60) == '8'
    ensures Symbol(61) == '9' && Symbol(47) == 'v'
  {
    hide UPPER, LOWER, OTHERS;
    UpperSymbols(25);
    LowerSymbols(6);
    LowerSymbols(12);
    LowerSymbols(21);
    OtherSymbols(8);
    OtherSymbols(9);
  }

  /** A foreign character is read as the character of value EINVAL. */
  lemma ForeignReadsAsW()
    ensures !InTable('!') && Decoded("!AAA") == Decoded("WAAA") && Encoded(Decoded("!AAA")) != "!AAA"
  {
    assert FromBase64('!') == FromBase64('W') == EINVAL;
    assert "!AAA"[4..] == "WAAA"[4..] == "";
    assert DecodeBlock('!', 'A', 'A', 'A') == DecodeBlock('W', 'A', 'A', 'A');
    EncodedDecodedIff("!AAA");
    assert "!AAA"[0] == '!';
  }

  lemma SplitEqual(text: string, a: string, b: string)
    requires |text| >= 4 && |a| == 4
    ensures a + b == text <==> a == [text[0], text[1], text[2], text[3]] && b == text[4..]
  {
    assert (a + b)[..4] == a && (a + b)[4..] == b;
    assert text[..4] == [text[0], text[1], text[2], text[3]];
    assert text == text[..4] + text[4..];
  }

  lemma WordOfBytes(v: nat)
    requires v < 0x1000000
    ensures var b := BytesOf(v); Word(b[0], b[1], b[2]) == v
  {
    var w := v / 0x100;
    assert v / 0x10000 == w / 0x100;
    assert w / 0x100 < 0x100 && v == w * 0x100 + v % 0x100;
    assert w == w / 0x100 * 0x100 + w % 0x100;
  }

  // ----- the loops -----

  lemma EncodedStep(s: seq<byte>, i: nat)
    requires i + 3 <= |s|
    ensures Encoded(s[i..]) == EncodeBlock(s[i], s[i + 1], s[i + 2]) + Encoded(s[i + 3..])
  {
    assert s[i..][3..] == s[i + 3..];
  }

  lemma EncodedEnd(rest: seq<byte>)
    requires |rest| < 3
    ensures Encoded(rest) == EncodePad(rest)
  {
  }

  lemma DecodedStep(text: string, i: nat)
    requires i + 4 <= |text|
    ensures Decoded(text[i..]) == DecodeBlock(text[i], text[i + 1], text[i + 2], text[i + 3]) + Decoded(text[i + 4..])
  {
    assert text[i..][4..] == text[i + 4..];
  }

  /** hdr_base64_encode */
  method Encode(input: seq<byte>, output: array<char>) returns (rc: int)
    modifies output
    ensures rc == 0 <==> output.Length == EncodedLen(|input|)
    ensures rc == 0 ==> output[..] == Encoded(input)
    ensures rc != 0 ==> rc == EINVAL && output[..] == old(output[..])
  {
    hide EncodeBlock, EncodePad, EncodedLen, Encoded;
    assert input[0..] == input;
    if EncodedLen(|input|) != output.Length {
      return EINVAL;
    }
    var i, j := 0, 0;
    while |input| - i >= 3 && j < output.Length
      invariant 0 <= i <= |input| && 0 <= j && j + EncodedLen(|input| - i) == output.Length
      invariant output[..j] + Encoded(input[i..]) == Encoded(input)
      decreases |input| - i
    {
      BlockLengths(|input| - i - 3);
      EncodedStep(input, i);
      var block := EncodeBlock(input[i], input[i + 1], input[i + 2]);
      Put(output, j, block);
      i, j := i + 3, j + 4;
    }
    BlockLengths(|input| - i);
    EncodedEnd(input[i..]);
    var block := EncodePad(input[i..]);
    Put(output, j, block);
    return 0;
  }

  method Put<T>(output: array<T>, j: nat, block: seq<T>)
    requires j + |block| <= output.Length
    modifies output
    ensures output[..j + |block|] == old(output[..j]) + block
    ensures output[j + |block|..] == old(output[j + |block|..])
  {
    forall k | 0 <= k < |block| { output[j + k] := block[k]; }
  }

  /** hdr_base64_decode */
  method Decode(input: string, output: array<byte>) returns (rc: int)
    modifies output
    ensures rc == 0 <==> |input| >= 4 && |input| % 4 == 0 && output.Length == DecodedLen(|input|)
    ensures rc == 0 ==> output[..] == Decoded(input)
    ensures rc != 0 ==> rc == -EINVAL && output[..] == old(output[..])
  {
    hide Decoded;
    if |input| < 4 || |input| % 4 != 0 || |input| / 4 * 3 != output.Length {
      return -EINVAL;
    }
    DecodeBlocks(input, output, |input| / 4);
    return 0;
  }

  /** Its loop. */
  method DecodeBlocks(input: string, output: array<byte>, ghost blocks: nat)
    requires |input| == 4 * blocks && output.Length == DecodedLen(|input|)
    modifies output
    ensures output[..] == Decoded(input)
  {
    hide DecodeBlock, DecodedLen, Decoded;
    assert input[0..] == input;
    var i, j := 0, 0;
    ghost var left := blocks;
    while i < |input|
      invariant 0 <= i <= |input| && |input| - i == 4 * left && 0 <= j && j + DecodedLen(|input| - i) == output.Length
      invariant output[..j] + Decoded(input[i..]) == Decoded(input)
      decreases |input| - i
    {
      BlockLengths(|input| - i - 4);
      DecodedStep(input, i);
      var block := DecodeBlock(input[i], input[i + 1], input[i + 2], input[i + 3]);
      Put(output, j, block);
      i, j := i + 4, j + 3;
      left := left - 1;
    }
    BlockLengths(0);
    assert Decoded(input[i..]) == [];
  }
}
