/** The data code words of the QR encoder: mode, length, bytes, terminator, padding
    (section 7.4 of ISO/IEC 18004:2015), and their decoder. */
module Codewords {
  import opened Bits
  import opened Wrappers

  /** One row of the block table: count blocks of total words, data of them data words. */
  datatype Block = Block(count: nat, total: nat, data: nat)

  const RS_BLOCKS: seq<seq<Block>> := [
    [Block(1, 26, 19)], [Block(1, 44, 34)], [Block(1, 70, 55)], [Block(1, 100, 80)],
    [Block(1, 134, 108)], [Block(2, 86, 68)], [Block(2, 98, 78)], [Block(2, 121, 97)],
    [Block(2, 146, 116)], [Block(2, 86, 68), Block(2, 87, 69)]]

  function DataWords(table: seq<Block>): nat {
    if table == [] then 0 else table[0].count * table[0].data + DataWords(table[1..])
  }

  function Capacity(version: nat): nat
    requires 1 <= version <= 10
  {
    DataWords(RS_BLOCKS[version - 1])
  }

  function LengthBits(version: nat): nat {
    if version < 10 then 8 else 16
  }

  predicate Fits(size: nat, version: nat)
    requires 1 <= version <= 10
  {
    4 + LengthBits(version) + size * 8 <= Capacity(version) * 8
  }

  /** Mode 4, the number of bytes, the bytes. */
  function Payload(bytes: seq<Byte>, version: nat): (s: seq<bool>)
    ensures |s| == 4 + LengthBits(version) + 8 * |bytes|
  {
    BitsOf(4, 4) + BitsOf(|bytes|, LengthBits(version)) + Stream(bytes)
  }

  /** The words of the payload with four zero bits, then alternating pad words. */
  ghost predicate IsLayout(words: seq<Byte>, bytes: seq<Byte>, version: nat) {
    var used := |bytes| + (4 + LengthBits(version) + 4) / 8;
    && used <= |words|
    && Stream(words[..used]) == Payload(bytes, version) + [false, false, false, false]
    && forall k | used <= k < |words| :: words[k] == if (k - used) % 2 == 1 then 0x11 else 0xec
  }

  /** Reads mode, length and bytes back from data words; the length field has the width of table 3 of
      ISO/IEC 18004:2015. */
  function Decode(words: seq<Byte>, version: nat): Option<seq<Byte>> {
    var bits := Stream(words);
    var start := if version <= 9 then 12 else 20;
    if |bits| < start || Value(bits[..4]) != 4 then None
    else
      var n := Value(bits[4..start]);
      if |bits| < start + 8 * n then None
      else Some(seq(n, k requires 0 <= k < n => ByteAt(bits, start + 8 * k)))
  }

  function ByteAt(bits: seq<bool>, at: nat): Byte
    requires at + 8 <= |bits|
  {
    BitsOfValue(bits[at..at + 8]);
    assert Pow2(8) == 256;
    Value(bits[at..at + 8])
  }

  // ---- the encoder ----

  method Push(bits: seq<bool>, number: nat, length: nat) returns (more: seq<bool>)
    ensures more == bits + BitsOf(number, length)
  {
    more := bits;
    var i := length;
    while i > 0
      invariant 0 <= i <= length
      invariant more == bits + BitsOf(number, length)[..length - i]
    {
      i := i - 1;
      BitsOfAt(number, length, length - 1 - i);
      more := more + [Bit(number, i)];
    }
  }

  method PushPayload(bytes: seq<Byte>, version: nat) returns (bits: seq<bool>)
    ensures bits == Payload(bytes, version)
  {
    hide BitsOf, LengthBits;
    bits := Push([], 4, 4);
    bits := Push(bits, |bytes|, LengthBits(version));
    for b := 0 to |bytes|
      invariant bits == BitsOf(4, 4) + BitsOf(|bytes|, LengthBits(version)) + Stream(bytes[..b])
    {
      assert bytes[..b + 1][..b] == bytes[..b];
      bits := Push(bits, bytes[b], 8);
    }
    assert bytes[..|bytes|] == bytes;
  }

  /** The terminator and the alignment loop.  The terminator's bound shrinks while it runs, so
      it stops after two bits when only four remain; together the loops always add four. */
  method Terminate(payload: seq<bool>, capacity: nat) returns (bits: seq<bool>)
    requires |payload| <= capacity * 8 && |payload| % 8 == 4
    ensures bits == payload + [false, false, false, false]
  {
    bits := payload;
    var i := 0;
    while i < (if 4 < capacity * 8 - |bits| then 4 else capacity * 8 - |bits|)
      invariant i <= 4 && |bits| == |payload| + i <= capacity * 8
      invariant bits[..|payload|] == payload && forall k | |payload| <= k < |bits| :: !bits[k]
    {
      bits := bits + [false];
      i := i + 1;
    }
    while |bits| % 8 != 0
      invariant |payload| <= |bits| <= |payload| + 4
      invariant bits[..|payload|] == payload && forall k | |payload| <= k < |bits| :: !bits[k]
      decreases |payload| + 4 - |bits|
    {
      bits := bits + [false];
    }
  }

  /** The eight bits from position i, shifted into one word. */
  method NextWord(bits: seq<bool>, i: nat) returns (word: nat)
    requires i + 8 <= |bits|
    ensures word < 256 && BitsOf(word, 8) == bits[i..i + 8]
  {
    word := 0;
    for j := 0 to 8
      invariant word == Value(bits[i..i + j])
    {
      assert bits[i..i + j + 1][..j] == bits[i..i + j];
      word := 2 * word + (if bits[i + j] then 1 else 0);
    }
    BitsOfValue(bits[i..i + 8]);
    assert Pow2(8) == 256;
  }

  method Assemble(bits: seq<bool>) returns (words: seq<Byte>)
    requires |bits| % 8 == 0
    ensures 8 * |words| == |bits| && Stream(words) == bits
  {
    words := [];
    var i := 0;
    while i < |bits|
      invariant i == 8 * |words| <= |bits|
      invariant Stream(words) == bits[..i]
    {
      var word := NextWord(bits, i);
      ghost var before := words;
      words := words + [word];
      assert words[..|before|] == before;
      i := i + 8;
    }
    assert bits[..i] == bits;
  }

  method PadTo(used: seq<Byte>, capacity: nat) returns (words: seq<Byte>)
    requires |used| <= capacity
    ensures |words| == capacity && used <= words
    ensures forall k | |used| <= k < |words| :: words[k] == if (k - |used|) % 2 == 1 then 0x11 else 0xec
  {
    words := used;
    var pad := 0;
    while |words| < capacity
      invariant |words| == |used| + pad <= capacity
      invariant used <= words
      invariant forall k | |used| <= k < |words| :: words[k] == if (k - |used|) % 2 == 1 then 0x11 else 0xec
    {
      words := words + [if pad % 2 == 1 then 0x11 else 0xec];
      pad := pad + 1;
    }
  }

  /** None exactly when the bytes do not fit; otherwise capacity words in the layout. */
  method DataCodewords(bytes: seq<Byte>, version: nat) returns (result: Option<seq<Byte>>)
    requires 1 <= version <= 10
    ensures result.None? <==> !Fits(|bytes|, version)
    ensures result.Some? ==> |result.value| == Capacity(version) && IsLayout(result.value, bytes, version)
  {
    hide Stream, Payload, Capacity;
    var capacity := Capacity(version);
    var bitLength := 4 + LengthBits(version) + |bytes| * 8;
    if bitLength > capacity * 8 {
      return None;
    }
    var payload := PushPayload(bytes, version);
    assert |payload| == 8 * (|bytes| + (if version < 10 then 1 else 2)) + 4;
    var bits := Terminate(payload, capacity);
    assert |bits| == 8 * (|bytes| + (4 + LengthBits(version) + 4) / 8);
    var used := Assemble(bits);
    var words := PadTo(used, capacity);
    assert words[..|used|] == used;
    result := Some(words);
  }

  // ---- the decoder inverts the encoder ----

  lemma LengthFits(size: nat, version: nat)
    requires 1 <= version <= 10 && Fits(size, version)
    ensures size < Pow2(LengthBits(version))
  {
    assert Pow2(8) == 256;
    assert Pow2(16) == 65536;
    assert RS_BLOCKS[9][1..][1..] == [];
    assert forall v | 0 <= v < 9 :: RS_BLOCKS[v][1..] == [];
    assert Capacity(version) < if version < 10 then 256 else 400;
  }

  /** The stream of laid-out words starts with the payload. */
  lemma LayoutStream(words: seq<Byte>, bytes: seq<Byte>, version: nat)
    requires IsLayout(words, bytes, version)
    ensures Payload(bytes, version) <= Stream(words)
  {
    var used := |bytes| + (4 + LengthBits(version) + 4) / 8;
    StreamPrefix(words, used);
    var payload := Payload(bytes, version);
    assert Stream(words)[..|payload|] == Stream(words)[..8 * used][..|payload|] == payload;
  }

  lemma PayloadParts(bits: seq<bool>, bytes: seq<Byte>, version: nat)
    requires 1 <= version <= 10 && Fits(|bytes|, version)
    requires Payload(bytes, version) <= bits
    ensures Value(bits[..4]) == 4
    ensures Value(bits[4..4 + LengthBits(version)]) == |bytes|
  {
    var payload := Payload(bytes, version);
    var start := 4 + LengthBits(version);
    assert bits[..4] == payload[..4] == BitsOf(4, 4);
    ValueOfBits(4, 4);
    assert bits[4..start] == payload[4..start] == BitsOf(|bytes|, LengthBits(version));
    LengthFits(|bytes|, version);
    ValueOfBits(|bytes|, LengthBits(version));
  }

  lemma PayloadByte(bits: seq<bool>, bytes: seq<Byte>, version: nat, k: nat)
    requires Payload(bytes, version) <= bits && k < |bytes|
    ensures ByteAt(bits, 4 + LengthBits(version) + 8 * k) == bytes[k]
  {
    var payload := Payload(bytes, version);
    var at := 4 + LengthBits(version) + 8 * k;
    StreamAt(bytes, k);
    assert bits[at..at + 8] == payload[at..at + 8] == Stream(bytes)[8 * k..8 * k + 8];
    assert Pow2(8) == 256;
    ValueOfBits(bytes[k], 8);
  }

  lemma WidthIs(version: nat)
    ensures 4 + LengthBits(version) == if version <= 9 then 12 else 20
  {
  }

  /** Words in the layout of some bytes decode to exactly these bytes, for every byte string
      that fits the version. */
  lemma DecodeInvertsLayout(words: seq<Byte>, bytes: seq<Byte>, version: nat)
    requires 1 <= version <= 10 && Fits(|bytes|, version)
    requires IsLayout(words, bytes, version)
    ensures Decode(words, version) == Some(bytes)
  {
    hide ByteAt, Payload, Stream, Value, Fits, IsLayout, LengthBits;
    WidthIs(version);
    var bits := Stream(words);
    LayoutStream(words, bytes, version);
    PayloadParts(bits, bytes, version);
    forall k | 0 <= k < |bytes| ensures ByteAt(bits, 4 + LengthBits(version) + 8 * k) == bytes[k] {
      PayloadByte(bits, bytes, version, k);
    }
    assert |Payload(bytes, version)| <= |bits|;
    var decoded := Decode(words, version);
    assert decoded.Some? && |decoded.value| == |bytes|;
    assert decoded.value == bytes;
  }
}
