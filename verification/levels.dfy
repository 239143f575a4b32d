/** The chain of octree levels: a power-of-two base image coarsened level by
    level down to the 1x1x1 root. */
module Levels {

  /** An integer triple, used both for voxel coordinates and image sizes. */
  datatype Coord = Coord(x: int, y: int, z: int)

  /** One level of the octree: its size and its sparse voxel words. A
      coordinate without an entry holds the word 0, meaning "empty". */
  datatype Level = Level(size: Coord, voxels: map<Coord, bv32>)

  /** The base image size the scene is built with. */
  const BaseSize: Coord := Coord(4, 4, 4)

  /** The size of the root level. */
  const RootSize: Coord := Coord(1, 1, 1)

  /** The word stored at a coordinate, 0 when nothing is stored there. */
  function Load(level: Level, c: Coord): (w: bv32)
    ensures w != 0 ==> c in level.voxels
    ensures c in level.voxels ==> w == level.voxels[c]
  {
    if c in level.voxels then level.voxels[c] else 0
  }

  function Half(c: Coord): Coord { Coord(c.x / 2, c.y / 2, c.z / 2) }

  function Double(c: Coord): Coord { Coord(2 * c.x, 2 * c.y, 2 * c.z) }

  function Plus(a: Coord, b: Coord): Coord { Coord(a.x + b.x, a.y + b.y, a.z + b.z) }

  function Pow2(k: nat): (p: nat)
    ensures p >= 1
  {
    if k == 0 then 1 else 2 * Pow2(k - 1)
  }

  /** The exponent of a power of two, found by repeated halving. */
  function Log2(n: int): (k: nat)
    requires n >= 1
    ensures Pow2(k) <= n < 2 * Pow2(k)
  {
    if n == 1 then 0 else 1 + Log2(n / 2)
  }

  lemma {:induction false} Log2OfPow2(k: nat)
    ensures Log2(Pow2(k)) == k
  {
    if k > 0 {
      assert Pow2(k) / 2 == Pow2(k - 1);
      Log2OfPow2(k - 1);
    }
  }

  /** The test the builder applies to every axis of the base size:
      `n & (n - 1) == 0`, on 32-bit words. */
  predicate PassesPowerOfTwoTest(n: bv32) {
    n & (n - 1) == 0
  }

  /** Every power of two below 2^32 passes the test, and so does 0. */
  lemma PowerOfTwoTestExamples(k: bv32)
    requires k < 32
    ensures PassesPowerOfTwoTest(1 << k)
    ensures PassesPowerOfTwoTest(0)
    ensures !PassesPowerOfTwoTest(6)
  {
  }

  /** The position of the single set bit of a one-bit word; 32 for every
      other word. */
  function OneBitPosition(n: bv32): (k: nat)
    ensures k <= 32
  {
    if n == 0x0000_0001 then 0
    else if n == 0x0000_0002 then 1
    else if n == 0x0000_0004 then 2
    else if n == 0x0000_0008 then 3
    else if n == 0x0000_0010 then 4
    else if n == 0x0000_0020 then 5
    else if n == 0x0000_0040 then 6
    else if n == 0x0000_0080 then 7
    else if n == 0x0000_0100 then 8
    else if n == 0x0000_0200 then 9
    else if n == 0x0000_0400 then 10
    else if n == 0x0000_0800 then 11
    else if n == 0x0000_1000 then 12
    else if n == 0x0000_2000 then 13
    else if n == 0x0000_4000 then 14
    else if n == 0x0000_8000 then 15
    else if n == 0x0001_0000 then 16
    else if n == 0x0002_0000 then 17
    else if n == 0x0004_0000 then 18
    else if n == 0x0008_0000 then 19
    else if n == 0x0010_0000 then 20
    else if n == 0x0020_0000 then 21
    else if n == 0x0040_0000 then 22
    else if n == 0x0080_0000 then 23
    else if n == 0x0100_0000 then 24
    else if n == 0x0200_0000 then 25
    else if n == 0x0400_0000 then 26
    else if n == 0x0800_0000 then 27
    else if n == 0x1000_0000 then 28
    else if n == 0x2000_0000 then 29
    else if n == 0x4000_0000 then 30
    else if n == 0x8000_0000 then 31
    else 32
  }

  /** The test passes exactly for 0 and the words with a single set bit,
      that is, for 0 and 2^k (1 << k) with k below 32. */
  lemma PowerOfTwoTestExact(n: bv32)
    ensures PassesPowerOfTwoTest(n) <==> n == 0 || OneBitPosition(n) < 32
    ensures PassesPowerOfTwoTest(n) && n != 0 ==> n as int == Pow2(OneBitPosition(n))
  {
    hide *;
    if PassesPowerOfTwoTest(n) && n != 0 {
      OneBitIsPow2(n);
    }
    if n == 0 || OneBitPosition(n) < 32 {
      OneBitPasses(n);
    }
  }

  /** The words that pass the test, listed. */
  lemma PassingWords(n: bv32)
    requires PassesPowerOfTwoTest(n)
    ensures n == 0 ||
      n == 0x0000_0001 || n == 0x0000_0002 || n == 0x0000_0004 || n == 0x0000_0008 ||
      n == 0x0000_0010 || n == 0x0000_0020 || n == 0x0000_0040 || n == 0x0000_0080 ||
      n == 0x0000_0100 || n == 0x0000_0200 || n == 0x0000_0400 || n == 0x0000_0800 ||
      n == 0x0000_1000 || n == 0x0000_2000 || n == 0x0000_4000 || n == 0x0000_8000 ||
      n == 0x0001_0000 || n == 0x0002_0000 || n == 0x0004_0000 || n == 0x0008_0000 ||
      n == 0x0010_0000 || n == 0x0020_0000 || n == 0x0040_0000 || n == 0x0080_0000 ||
      n == 0x0100_0000 || n == 0x0200_0000 || n == 0x0400_0000 || n == 0x0800_0000 ||
      n == 0x1000_0000 || n == 0x2000_0000 || n == 0x4000_0000 || n == 0x8000_0000
  {
  }

  /** The words with a bit position, listed. */
  lemma OneBitWords(n: bv32)
    requires OneBitPosition(n) < 32
    ensures n == 0x0000_0001 || n == 0x0000_0002 || n == 0x0000_0004 || n == 0x0000_0008 ||
      n == 0x0000_0010 || n == 0x0000_0020 || n == 0x0000_0040 || n == 0x0000_0080 ||
      n == 0x0000_0100 || n == 0x0000_0200 || n == 0x0000_0400 || n == 0x0000_0800 ||
      n == 0x0000_1000 || n == 0x0000_2000 || n == 0x0000_4000 || n == 0x0000_8000 ||
      n == 0x0001_0000 || n == 0x0002_0000 || n == 0x0004_0000 || n == 0x0008_0000 ||
      n == 0x0010_0000 || n == 0x0020_0000 || n == 0x0040_0000 || n == 0x0080_0000 ||
      n == 0x0100_0000 || n == 0x0200_0000 || n == 0x0400_0000 || n == 0x0800_0000 ||
      n == 0x1000_0000 || n == 0x2000_0000 || n == 0x4000_0000 || n == 0x8000_0000
  {
  }

  lemma OneBitPasses(n: bv32)
    requires n == 0 || OneBitPosition(n) < 32
    ensures PassesPowerOfTwoTest(n)
  {
    if n != 0 {
      OneBitWords(n);
    }
  }

  /** A nonzero word that passes the test is 2^k for the position k of its
      bit. */
  lemma OneBitIsPow2(n: bv32)
    requires PassesPowerOfTwoTest(n) && n != 0
    ensures OneBitPosition(n) < 32 && n as int == Pow2(OneBitPosition(n))
  {
    PassingWords(n);
    assert Pow2(1) == 2;
    assert Pow2(2) == 4;
    assert Pow2(3) == 8;
    assert Pow2(4) == 16;
    assert Pow2(5) == 32;
    assert Pow2(6) == 64;
    assert Pow2(7) == 128;
    assert Pow2(8) == 256;
    assert Pow2(9) == 512;
    assert Pow2(10) == 1024;
    assert Pow2(11) == 2048;
    assert Pow2(12) == 4096;
    assert Pow2(13) == 8192;
    assert Pow2(14) == 16384;
    assert Pow2(15) == 32768;
    assert Pow2(16) == 65536;
    assert Pow2(17) == 131072;
    assert Pow2(18) == 262144;
    assert Pow2(19) == 524288;
    assert Pow2(20) == 1048576;
    assert Pow2(21) == 2097152;
    assert Pow2(22) == 4194304;
    assert Pow2(23) == 8388608;
    assert Pow2(24) == 16777216;
    assert Pow2(25) == 33554432;
    assert Pow2(26) == 67108864;
    assert Pow2(27) == 134217728;
    assert Pow2(28) == 268435456;
    assert Pow2(29) == 536870912;
    assert Pow2(30) == 1073741824;
    assert Pow2(31) == 2147483648;
  }

  /** A nonzero size that passes the builder's test is a power of two in the
      sense the level chain requires. */
  lemma PassingSizeIsPowerOfTwo(n: bv32)
    requires PassesPowerOfTwoTest(n) && n != 0
    ensures n as int >= 1 && Pow2(Log2(n as int)) == n as int
  {
    hide *;
    OneBitIsPow2(n);
    Log2OfPow2(OneBitPosition(n));
  }

  /** A size with the same power of two on every axis. */
  predicate IsPowerOfTwoCube(s: Coord) {
    s.x == s.y == s.z && s.x >= 1 && Pow2(Log2(s.x)) == s.x
  }

  /** A base with the same nonzero extent on every axis that passes the
      builder's test is what the level chain requires. */
  lemma TestedBaseIsCube(n: bv32)
    requires PassesPowerOfTwoTest(n) && n != 0
    ensures IsPowerOfTwoCube(Coord(n as int, n as int, n as int))
  {
    PassingSizeIsPowerOfTwo(n);
  }

  /** The sizes of the level chain: start at the base and halve until the
      root size is reached. */
  function SizeChain(base: Coord): (r: seq<Coord>)
    requires IsPowerOfTwoCube(base)
    ensures |r| == Log2(base.x) + 1
    ensures r[0] == base && r[|r| - 1] == RootSize
    ensures forall i :: 0 <= i < |r| - 1 ==> r[i + 1] == Half(r[i]) && r[i] != RootSize
    decreases base.x
  {
    if base == RootSize then [base]
    else
      assert base.x >= 2;
      assert Pow2(Log2(base.x) - 1) == base.x / 2;
      [base] + SizeChain(Half(base))
  }

  /** The constant 4x4x4 base gives three levels: 4, 2 and 1 per axis. */
  lemma BaseChain()
    ensures IsPowerOfTwoCube(BaseSize)
    ensures SizeChain(BaseSize) == [Coord(4, 4, 4), Coord(2, 2, 2), RootSize]
  {
    assert Pow2(2) == 4;
    assert SizeChain(Coord(1, 1, 1)) == [RootSize];
  }

  /** Builds the level images: level 0 is the base, and every further level
      has half the size of the one before and is filled by `coarsen` from it. */
  function BuildLevels(base: Level, coarsen: Level -> map<Coord, bv32>): (r: seq<Level>)
    requires IsPowerOfTwoCube(base.size)
    ensures |r| == Log2(base.size.x) + 1
    ensures r[0] == base && r[|r| - 1].size == RootSize
    ensures forall i :: 0 <= i < |r| - 1 ==>
      r[i + 1].size == Half(r[i].size) && r[i + 1].voxels == coarsen(r[i])
    decreases base.size.x
  {
    if base.size == RootSize then [base]
    else
      assert Pow2(Log2(base.size.x) - 1) == base.size.x / 2;
      [base] + BuildLevels(Level(Half(base.size), coarsen(base)), coarsen)
  }

  /** The sizes of the built levels are exactly the size chain of the base. */
  lemma {:induction false} BuildLevelsFollowsChain(base: Level, coarsen: Level -> map<Coord, bv32>)
    requires IsPowerOfTwoCube(base.size)
    ensures var r := BuildLevels(base, coarsen);
      forall i :: 0 <= i < |r| ==> r[i].size == SizeChain(base.size)[i]
    decreases base.size.x
  {
    var r := BuildLevels(base, coarsen);
    var s := SizeChain(base.size);
    forall i | 0 <= i < |r| ensures r[i].size == s[i] {
      HalvesAgree(r, s, i);
    }
  }

  lemma {:induction false} HalvesAgree(r: seq<Level>, s: seq<Coord>, i: nat)
    requires |r| == |s| && i < |r| && r[0].size == s[0]
    requires forall j :: 0 <= j < |r| - 1 ==> r[j + 1].size == Half(r[j].size)
    requires forall j :: 0 <= j < |s| - 1 ==> s[j + 1] == Half(s[j])
    ensures r[i].size == s[i]
  {
    if i > 0 {
      HalvesAgree(r, s, i - 1);
    }
  }

  /** Halving a size n times. */
  function HalveTimes(s: Coord, n: nat): Coord
    decreases n
  {
    if n == 0 then s else HalveTimes(Half(s), n - 1)
  }

  /** Each axis is a power of two or zero. */
  predicate PowerOrZeroAxes(s: Coord) {
    (s.x == 0 || (s.x >= 1 && Pow2(Log2(s.x)) == s.x)) &&
    (s.y == 0 || (s.y >= 1 && Pow2(Log2(s.y)) == s.y)) &&
    (s.z == 0 || (s.z >= 1 && Pow2(Log2(s.z)) == s.z))
  }

  lemma HalfOfPowerOrZero(n: int)
    requires n == 0 || (n >= 1 && Pow2(Log2(n)) == n)
    ensures n / 2 == 0 || (n / 2 >= 1 && Pow2(Log2(n / 2)) == n / 2)
  {
    if n >= 2 {
      var k := Log2(n);
      assert k >= 1;
      HalfPow2(k);
    }
  }

  lemma HalfPow2(k: nat)
    requires k >= 1
    ensures Pow2(k) / 2 == Pow2(k - 1)
    ensures Log2(Pow2(k - 1)) == k - 1
  {
    Log2OfPow2(k - 1);
  }

  /** Two distinct powers of two or zeros stay distinct under halving unless
      both reach zero. */
  lemma HalfKeepsApart(a: int, b: int)
    requires a == 0 || (a >= 1 && Pow2(Log2(a)) == a)
    requires b == 0 || (b >= 1 && Pow2(Log2(b)) == b)
    requires a != b
    ensures a / 2 != b / 2 || a / 2 == 0
  {
    if a >= 2 && b >= 2 {
      assert Pow2(Log2(a)) == 2 * Pow2(Log2(a) - 1);
      assert Pow2(Log2(b)) == 2 * Pow2(Log2(b) - 1);
    }
  }

  /** A base whose axes are powers of two but not all equal never halves to
      the root size, so the builder's halving loop does not stop for it. */
  lemma {:induction false} UnequalAxesNeverReachRoot(s: Coord, n: nat)
    requires PowerOrZeroAxes(s)
    requires s.x != s.y || s.y != s.z || s.x == 0
    ensures HalveTimes(s, n) != RootSize
    decreases n
  {
    if n > 0 {
      HalfOfPowerOrZero(s.x);
      HalfOfPowerOrZero(s.y);
      HalfOfPowerOrZero(s.z);
      if s.x != s.y {
        HalfKeepsApart(s.x, s.y);
      } else if s.y != s.z {
        HalfKeepsApart(s.y, s.z);
      }
      UnequalAxesNeverReachRoot(Half(s), n - 1);
    }
  }
}
