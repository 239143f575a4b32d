/** Bit arithmetic of the octree builder: the parallel population count the
    compactor applies to a node's child-mask byte. */
module Bits {

  /** The parallel ("magic binary numbers") population count, written as the
      five reduction steps the builder performs one after the other. A word
      has at most 32 set bits, and only the zero word has none. */
  function BitCount(v: bv32): (r: bv32)
    ensures r <= 32
    ensures r == 0 <==> v == 0
  {
    var c := PairSums(v);
    var c := NibbleSums(c);
    var c := ByteSums(c);
    var c := HalfSums(c);
    WordSum(c)
  }

  /** Step 1: every 2-bit field holds the number of set bits it had. */
  function PairSums(v: bv32): bv32 { v - ((v >> 1) & 0x5555_5555) }

  /** Step 2: every 4-bit field holds its bit count. */
  function NibbleSums(c: bv32): bv32 { ((c >> 2) & 0x3333_3333) + (c & 0x3333_3333) }

  /** Step 3: every byte holds its bit count. */
  function ByteSums(c: bv32): bv32 { ((c >> 4) + c) & 0x0F0F_0F0F }

  /** Step 4: every 16-bit half holds its bit count. */
  function HalfSums(c: bv32): bv32 { ((c >> 8) + c) & 0x00FF_00FF }

  /** Step 5: the low half holds the bit count of the whole word. */
  function WordSum(c: bv32): bv32 { ((c >> 16) + c) & 0x0000_FFFF }

  /** Bits 8..15 of a node word: one bit per child octant. */
  const ChildMaskBits: bv32 := 0x0000_FF00

  /** The child count the compactor adds to its running offset for a node
      word: the parallel count of the word's mask bits. */
  function ChildCount(code: bv32): bv32 {
    BitCount(code & ChildMaskBits)
  }

  /** The child-mask byte of a node word. */
  function ChildMask(code: bv32): bv8 { ((code >> 8) & 0xFF) as bv8 }

  /** Whether bit i of a byte is set, as 0 or 1. */
  function Flag(b: bv8, i: nat): nat
    requires i < 8
  {
    if (b >> i) & 1 == 1 then 1 else 0
  }

  /** Reference count of the set bits of a byte, one bit at a time. */
  function Count8(b: bv8): nat {
    Flag(b, 0) + Flag(b, 1) + Flag(b, 2) + Flag(b, 3) + Flag(b, 4) + Flag(b, 5) + Flag(b, 6) + Flag(b, 7)
  }

  /** The same count in 8-bit arithmetic, a bridge between the word-sized
      algorithm and the integer count. */
  function Pop8(b: bv8): bv8 {
    ((b >> 0) & 1) + ((b >> 1) & 1) + ((b >> 2) & 1) + ((b >> 3) & 1)
    + ((b >> 4) & 1) + ((b >> 5) & 1) + ((b >> 6) & 1) + ((b >> 7) & 1)
  }

  /** The number of children a node word announces in its mask byte. */
  function MaskBits(code: bv32): (n: nat)
    ensures n <= 8
  {
    Count8(ChildMask(code))
  }

  lemma Pop8IsCount8(b: bv8)
    ensures Pop8(b) as int == Count8(b)
    ensures Count8(b) <= 8
  {
  }

  /** On a word masked to bits 8..15 the parallel count agrees with the
      8-bit count of that byte. */
  lemma MaskedBitCount(code: bv32)
    ensures BitCount(code & ChildMaskBits) == Pop8(ChildMask(code)) as bv32
  {
  }

  /** The value the compactor adds to its running offset for a node,
      `bitCount(data & 0xFF00)`, is the number of set bits of the node's
      child-mask byte. */
  lemma BitCountOfMask(code: bv32)
    ensures ChildCount(code) as int == MaskBits(code)
    ensures ChildCount(code) <= 8
  {
    MaskedBitCount(code);
    Pop8IsCount8(ChildMask(code));
    assert Pop8(ChildMask(code)) <= 8;
  }

  /** The parallel count of a full mask byte and of single mask bits. */
  lemma BitCountExamples()
    ensures BitCount(0x0000_FF00) == 8
    ensures BitCount(0x0000_0100) == 1
    ensures BitCount(0xFFFF_FFFF) == 32
    ensures BitCount(0) == 0
  {
  }

  // ---------------------------------------------------------------------
  // The count for every word

  /** Byte 0 (lowest) to byte 3 (highest) of a word. */
  function Byte0(v: bv32): bv8 { (v & 0xFF) as bv8 }
  function Byte1(v: bv32): bv8 { ((v >> 8) & 0xFF) as bv8 }
  function Byte2(v: bv32): bv8 { ((v >> 16) & 0xFF) as bv8 }
  function Byte3(v: bv32): bv8 { (v >> 24) as bv8 }

  /** Reference count of the set bits of a word: the bit-by-bit sums of its
      four bytes, added up. */
  function BitSum(v: bv32): bv32 {
    Pop8(Byte0(v)) as bv32 + Pop8(Byte1(v)) as bv32 + Pop8(Byte2(v)) as bv32 + Pop8(Byte3(v)) as bv32
  }

  /** The word after the first three reduction steps. */
  function ByteStage(v: bv32): bv32 { ByteSums(NibbleSums(PairSums(v))) }

  /** After three steps, each byte of the word holds the bit count of the
      same byte of the input. */
  lemma ByteStage0(v: bv32)
    ensures ByteStage(v) & 0xFF == Pop8(Byte0(v)) as bv32
  {
  }

  lemma ByteStage1(v: bv32)
    ensures (ByteStage(v) >> 8) & 0xFF == Pop8(Byte1(v)) as bv32
  {
  }

  lemma ByteStage2(v: bv32)
    ensures (ByteStage(v) >> 16) & 0xFF == Pop8(Byte2(v)) as bv32
  {
  }

  lemma ByteStage3(v: bv32)
    ensures (ByteStage(v) >> 24) & 0xFF == Pop8(Byte3(v)) as bv32
  {
  }

  lemma Pop8Bound(b: bv8)
    ensures Pop8(b) <= 8
  {
  }

  /** Steps 4 and 5 add up four byte counts of at most 8 each. */
  lemma AddBytes(c: bv32, a: bv8, b: bv8, d: bv8, e: bv8)
    requires c & 0xFF == a as bv32 && (c >> 8) & 0xFF == b as bv32
    requires (c >> 16) & 0xFF == d as bv32 && (c >> 24) & 0xFF == e as bv32
    requires a <= 8 && b <= 8 && d <= 8 && e <= 8
    ensures WordSum(HalfSums(c)) == a as bv32 + b as bv32 + d as bv32 + e as bv32
  {
  }

  lemma Stages(v: bv32)
    ensures BitCount(v) == WordSum(HalfSums(ByteStage(v)))
  {
  }

  lemma SumBytes(v: bv32)
    ensures BitSum(v) == Pop8(Byte0(v)) as bv32 + Pop8(Byte1(v)) as bv32 + Pop8(Byte2(v)) as bv32 + Pop8(Byte3(v)) as bv32
  {
  }

  /** The parallel count of any 32-bit word is its number of set bits. */
  lemma BitCountCorrect(v: bv32)
    ensures BitCount(v) == BitSum(v)
  {
    hide *;
    Stages(v);
    SumBytes(v);
    ByteStage0(v);
    ByteStage1(v);
    ByteStage2(v);
    ByteStage3(v);
    Pop8Bound(Byte0(v));
    Pop8Bound(Byte1(v));
    Pop8Bound(Byte2(v));
    Pop8Bound(Byte3(v));
    AddBytes(ByteStage(v), Pop8(Byte0(v)), Pop8(Byte1(v)), Pop8(Byte2(v)), Pop8(Byte3(v)));
  }
}
