/** Conversion of a MagicaVoxel model into the base level of the octree:
    palette packing, the dense voxel scan, and the leaf words it stores. */
module VoxLoader {
  import opened Bits
  import opened Levels
  import opened Arith

  // ---------------------------------------------------------------------
  // Palette

  /** One palette entry, four 8-bit channels. */
  datatype Rgba = Rgba(r: bv8, g: bv8, b: bv8, a: bv8)

  /** A palette entry packed into one word: red in the top byte, then green,
      blue and alpha. */
  function PackColor(c: Rgba): (r: bv32)
    ensures r >> 24 == c.r as bv32 && (r >> 16) & 0xFF == c.g as bv32
    ensures (r >> 8) & 0xFF == c.b as bv32 && r & 0xFF == c.a as bv32
  {
    (c.r as bv32 << 24) | (c.g as bv32 << 16) | (c.b as bv32 << 8) | (c.a as bv32)
  }

  /** The channels of a packed word, by shifting and masking. */
  function UnpackColor(w: bv32): Rgba {
    Rgba((w >> 24) as bv8, ((w >> 16) & 0xFF) as bv8, ((w >> 8) & 0xFF) as bv8, (w & 0xFF) as bv8)
  }

  /** Packing loses nothing: every channel is recovered. */
  lemma UnpackPack(c: Rgba)
    ensures UnpackColor(PackColor(c)) == c
  {
  }

  /** Every word is the packing of its channels, so packing is a bijection
      between entries and words. */
  lemma PackUnpack(w: bv32)
    ensures PackColor(UnpackColor(w)) == w
  {
  }

  /** Packs the palette entry by entry, in index order. */
  method PackPalette(palette: seq<Rgba>) returns (words: seq<bv32>)
    ensures |words| == |palette|
    ensures forall i :: 0 <= i < |words| ==> UnpackColor(words[i]) == palette[i]
  {
    words := [];
    var i := 0;
    while i < |palette|
      invariant 0 <= i <= |palette| && |words| == i
      invariant forall k :: 0 <= k < i ==> UnpackColor(words[k]) == palette[k]
    {
      UnpackPack(palette[i]);
      words := words + [PackColor(palette[i])];
      i := i + 1;
    }
  }

  // ---------------------------------------------------------------------
  // Models and the voxel scan

  /** A model as the vox parser returns it: its extent along the file's
      three axes and one color index per voxel, x fastest, then y, then z. */
  datatype Model = Model(sx: nat, sy: nat, sz: nat, voxels: seq<bv8>)

  /** The number of voxels of a model. */
  function Volume(m: Model): nat {
    m.sx * (m.sy * m.sz)
  }

  /** The parser stores exactly one color index per voxel. */
  predicate WellFormed(m: Model) {
    |m.voxels| == Volume(m)
  }

  /** Whether (x, y, z) lies inside the model, in the file's axes. */
  predicate InModel(m: Model, x: int, y: int, z: int) {
    0 <= x < m.sx && 0 <= y < m.sy && 0 <= z < m.sz
  }

  /** The position of voxel (x, y, z) in the model's color indices. */
  function Index(m: Model, x: nat, y: nat, z: nat): nat {
    x + m.sx * (y + m.sy * z)
  }

  /** A mixed-radix digit pair stays below the product of the radices. */
  lemma DigitsBelow(a: nat, n: nat, b: nat, bound: nat)
    requires a < n && b < bound
    ensures a + n * b < n * bound
  {
    assert n * (b + 1) <= n * bound by {
      MulMonotone(n, b + 1, bound);
    }
  }

  /** A mixed-radix digit pair is determined by its value. */
  lemma DigitsUnique(a: nat, b: nat, a': nat, b': nat, n: nat)
    requires a < n && a' < n && a + n * b == a' + n * b'
    ensures a == a' && b == b'
  {
    DigitsBelow(a', n, b', b' + 1);
    MulCancelLess(n, b, b' + 1);
    DigitsBelow(a, n, b, b + 1);
    MulCancelLess(n, b', b + 1);
  }

  /** Every voxel inside the model has an index inside the color indices. */
  lemma IndexBelowVolume(m: Model, x: nat, y: nat, z: nat)
    requires InModel(m, x, y, z)
    ensures Index(m, x, y, z) < Volume(m)
  {
    DigitsBelow(y, m.sy, z, m.sz);
    DigitsBelow(x, m.sx, y + m.sy * z, m.sy * m.sz);
  }

  /** Distinct voxels inside the model have distinct indices. */
  lemma IndexInjective(m: Model, x: nat, y: nat, z: nat, x': nat, y': nat, z': nat)
    requires InModel(m, x, y, z) && InModel(m, x', y', z')
    requires Index(m, x, y, z) == Index(m, x', y', z')
    ensures x == x' && y == y' && z == z'
  {
    var t, t' := y + m.sy * z, y' + m.sy * z';
    assert x < m.sx && x' < m.sx && y < m.sy && y' < m.sy;
    assert x + m.sx * t == x' + m.sx * t';
    hide *;
    DigitsUnique(x, t, x', t', m.sx);
    DigitsUnique(y, z, y', z', m.sy);
  }

  /** The voxel at an index: the inverse of `Index` on the model's voxels. */
  function VoxelOf(m: Model, i: nat): (r: (nat, nat, nat))
    requires i < Volume(m)
    ensures InModel(m, r.0, r.1, r.2) && Index(m, r.0, r.1, r.2) == i
  {
    var q := i / m.sx;
    var r := (i % m.sx, q % m.sy, q / m.sy);
    QuotientBelow(i, m.sx, m.sy * m.sz);
    QuotientBelow(q, m.sy, m.sz);
    r
  }

  lemma QuotientBelow(i: nat, n: nat, bound: nat)
    requires i < n * bound
    ensures n > 0 && i / n < bound && i == i % n + n * (i / n)
  {
    if n > 0 {
      assert n * (i / n) <= i;
      MulCancelLess(n, i / n, bound);
    }
  }

  /** The scan covers the color indices exactly once: every voxel inside
      the model has its own index below the volume (and `VoxelOf` finds the
      voxel of every such index). */
  lemma ScanCoversIndices(m: Model)
    ensures forall x: nat, y: nat, z: nat :: InModel(m, x, y, z) ==> Index(m, x, y, z) < Volume(m)
    ensures forall x: nat, y: nat, z: nat, x': nat, y': nat, z': nat ::
      InModel(m, x, y, z) && InModel(m, x', y', z') && Index(m, x, y, z) == Index(m, x', y', z')
      ==> x == x' && y == y' && z == z'
  {
    forall x: nat, y: nat, z: nat | InModel(m, x, y, z) ensures Index(m, x, y, z) < Volume(m) {
      IndexBelowVolume(m, x, y, z);
    }
    forall x: nat, y: nat, z: nat, x': nat, y': nat, z': nat |
      InModel(m, x, y, z) && InModel(m, x', y', z') && Index(m, x, y, z) == Index(m, x', y', z')
      ensures x == x' && y == y' && z == z'
    {
      IndexInjective(m, x, y, z, x', y', z');
    }
  }

  // ---------------------------------------------------------------------
  // Leaf words

  /** Bits 30 and 31 mark a valid leaf voxel. */
  const ValidLeafMask: bv32 := 0xC000_0000

  /** The word stored for a solid voxel of the given color index. */
  function LeafWord(color: bv8): (r: bv32)
    ensures r >> 30 == 3 && r & 0x3FFF_FF00 == 0 && (r & 0xFF) as bv8 == color
  {
    ValidLeafMask | color as bv32
  }

  /** A leaf word keeps its color in the low byte, carries the valid mark,
      is nonzero, and announces no children, so it adds nothing to the
      compactor's child count. */
  lemma LeafWordBits(color: bv8)
    ensures (LeafWord(color) & 0xFF) as bv8 == color
    ensures LeafWord(color) >> 30 == 3
    ensures LeafWord(color) & 0x3FFF_FF00 == 0
    ensures LeafWord(color) != 0
    ensures MaskBits(LeafWord(color)) == 0 && ChildCount(LeafWord(color)) == 0
  {
    assert ChildMask(LeafWord(color)) == 0;
    BitCountOfMask(LeafWord(color));
  }

  // ---------------------------------------------------------------------
  // Where voxels are stored

  /** The file's z axis is the engine's up axis: voxel (x, y, z) is stored at
      (x, z, y). */
  function StoredAt(x: int, y: int, z: int): Coord {
    Coord(x, z, y)
  }

  /** Whether level coordinate c holds a voxel of the model. */
  predicate FromModel(m: Model, c: Coord) {
    InModel(m, c.x, c.z, c.y)
  }

  /** The color index of the voxel stored at c. */
  function ColorAt(m: Model, c: Coord): bv8
    requires WellFormed(m) && FromModel(m, c)
  {
    IndexBelowVolume(m, c.x, c.z, c.y);
    m.voxels[Index(m, c.x, c.z, c.y)]
  }

  /** The stores the scan has made once it has read the first n color
      indices: exactly the solid voxels among them, each with its leaf word. */
  ghost predicate Scanned(m: Model, store: map<Coord, bv32>, n: nat)
    requires WellFormed(m)
  {
    (forall c :: c in store ==> FromModel(m, c) && ColorAt(m, c) != 0 && Index(m, c.x, c.z, c.y) < n) &&
    (forall c :: FromModel(m, c) && Index(m, c.x, c.z, c.y) < n && ColorAt(m, c) != 0 ==> c in store) &&
    (forall c :: c in store ==> store[c] == LeafWord(ColorAt(m, c)))
  }

  /** The level data of a model: a word at exactly the coordinates of its
      solid voxels, the leaf word of the voxel's color. */
  ghost predicate IsModelStore(m: Model, store: map<Coord, bv32>)
    requires WellFormed(m)
  {
    (forall c :: c in store <==> FromModel(m, c) && ColorAt(m, c) != 0) &&
    (forall c :: c in store ==> store[c] == LeafWord(ColorAt(m, c)))
  }

  /** Reading one more voxel: a solid one is stored at its swapped
      coordinate, an empty one leaves the stores as they were. */
  lemma ScanOne(m: Model, store: map<Coord, bv32>, x: nat, y: nat, z: nat)
    requires WellFormed(m) && InModel(m, x, y, z)
    requires Scanned(m, store, Index(m, x, y, z))
    ensures Index(m, x, y, z) < |m.voxels|
    ensures var color := m.voxels[Index(m, x, y, z)];
      Scanned(m, if color != 0 then store[StoredAt(x, y, z) := LeafWord(color)] else store, Index(m, x, y, z) + 1)
  {
    IndexBelowVolume(m, x, y, z);
    var i := Index(m, x, y, z);
    var here := StoredAt(x, y, z);
    assert ColorAt(m, here) == m.voxels[i];
    forall c | FromModel(m, c) && Index(m, c.x, c.z, c.y) == i ensures c == here {
      IndexInjective(m, c.x, c.z, c.y, x, y, z);
    }
  }

  /** Once every index is read, the stores are the model's level data. */
  lemma ScanComplete(m: Model, store: map<Coord, bv32>)
    requires WellFormed(m) && Scanned(m, store, Volume(m))
    ensures IsModelStore(m, store)
  {
    forall c | FromModel(m, c) ensures Index(m, c.x, c.z, c.y) < Volume(m) {
      IndexBelowVolume(m, c.x, c.z, c.y);
    }
  }

  /** The level size the loader creates, the model's extent in the file's
      axis order. */
  function AsWrittenLevelSize(m: Model): Coord {
    Coord(m.sx, m.sy, m.sz)
  }

  /** The level size that matches the swapped storage: the file's z extent
      becomes the level's y extent. */
  function LevelSize(m: Model): Coord {
    Coord(m.sx, m.sz, m.sy)
  }

  /** Whether c lies inside a level of the given size. */
  predicate InBox(size: Coord, c: Coord) {
    0 <= c.x < size.x && 0 <= c.y < size.y && 0 <= c.z < size.z
  }

  /** With the swapped size, a coordinate of the level is inside its box
      exactly when it holds a voxel of the model. */
  lemma StoresInsideLevel(m: Model, c: Coord)
    ensures InBox(LevelSize(m), c) <==> FromModel(m, c)
  {
  }

  /** With the size as written, the voxel coordinates fit the level's box
      exactly when the model's y and z extents agree: a model one voxel wide
      and deep and two voxels tall stores its top voxel outside the level. */
  lemma AsWrittenSizeMissesStores(m: Model)
    requires m.sx > 0 && m.sy > 0 && m.sz > 0
    ensures (forall x: nat, y: nat, z: nat :: InModel(m, x, y, z) ==> InBox(AsWrittenLevelSize(m), StoredAt(x, y, z)))
            <==> m.sy == m.sz
    ensures var tall := Model(1, 1, 2, [0, 5]);
      WellFormed(tall) && tall.voxels[Index(tall, 0, 0, 1)] == 5 && !InBox(AsWrittenLevelSize(tall), StoredAt(0, 0, 1))
  {
    if m.sy < m.sz {
      assert InModel(m, 0, 0, m.sy) && !InBox(AsWrittenLevelSize(m), StoredAt(0, 0, m.sy));
    } else if m.sz < m.sy {
      assert InModel(m, 0, m.sz, 0) && !InBox(AsWrittenLevelSize(m), StoredAt(0, m.sz, 0));
    }
  }

  // ---------------------------------------------------------------------
  // Parsing

  /** What the loader hands to the scene: the packed palette and the level
      holding the model's voxels. */
  datatype VoxData = VoxData(palette: seq<bv32>, level: Level)

  /** Converts a model as the loader does: packs the palette, creates the
      level with the model's extent in the file's axis order, then reads the
      color indices with z outermost and x innermost and stores a leaf word
      at the swapped coordinate of every solid voxel; empty voxels store
      nothing. The stores fit the swapped extent, not the level's own. */
  method ParseModel(palette: seq<Rgba>, m: Model) returns (data: VoxData)
    requires WellFormed(m)
    ensures |data.palette| == |palette|
    ensures forall i :: 0 <= i < |palette| ==> UnpackColor(data.palette[i]) == palette[i]
    ensures data.level.size == AsWrittenLevelSize(m)
    ensures IsModelStore(m, data.level.voxels)
    ensures forall c :: c in data.level.voxels ==> InBox(LevelSize(m), c)
  {
    var words := PackPalette(palette);
    var store := ScanModel(m);
    data := VoxData(words, Level(AsWrittenLevelSize(m), store));
  }

  /** The conversion with the level sized to its stores: the file's z extent
      becomes the level's y extent, so every stored voxel lies inside it. */
  method ParseModelFitted(palette: seq<Rgba>, m: Model) returns (data: VoxData)
    requires WellFormed(m)
    ensures |data.palette| == |palette|
    ensures forall i :: 0 <= i < |palette| ==> UnpackColor(data.palette[i]) == palette[i]
    ensures data.level.size == LevelSize(m)
    ensures IsModelStore(m, data.level.voxels)
    ensures forall c :: c in data.level.voxels ==> InBox(data.level.size, c)
  {
    var words := PackPalette(palette);
    var store := ScanModel(m);
    data := VoxData(words, Level(LevelSize(m), store));
  }

  /** The voxel scan: reads the color indices with z outermost and x
      innermost and stores a leaf word at the swapped coordinate of every
      solid voxel. */
  method ScanModel(m: Model) returns (store: map<Coord, bv32>)
    requires WellFormed(m)
    ensures IsModelStore(m, store)
    ensures forall c :: c in store ==> InBox(LevelSize(m), c)
  {
    store := map[];
    var voxelIndex := 0;
    var z := 0;
    while z < m.sz
      invariant 0 <= z <= m.sz
      invariant voxelIndex == m.sx * (m.sy * z)
      invariant Scanned(m, store, voxelIndex)
    {
      var y := 0;
      while y < m.sy
        invariant 0 <= y <= m.sy
        invariant voxelIndex == m.sx * (y + m.sy * z)
        invariant Scanned(m, store, voxelIndex)
      {
        var x := 0;
        while x < m.sx
          invariant 0 <= x <= m.sx
          invariant voxelIndex == Index(m, x, y, z)
          invariant Scanned(m, store, voxelIndex)
        {
          ScanOne(m, store, x, y, z);
          var colorIndex := m.voxels[voxelIndex];
          if colorIndex != 0 {
            store := store[StoredAt(x, y, z) := LeafWord(colorIndex)];
          }
          x := x + 1;
          voxelIndex := voxelIndex + 1;
        }
        assert voxelIndex == m.sx * ((y + 1) + m.sy * z);
        y := y + 1;
      }
      assert voxelIndex == m.sx * (m.sy * (z + 1));
      z := z + 1;
    }
    ScanComplete(m, store);
    forall c | c in store ensures InBox(LevelSize(m), c) {
      StoresInsideLevel(m, c);
    }
  }

  /** The level data of the 1x1x2 model whose upper voxel is solid holds a
      word at (0, 1, 0), outside the 1x1x2 box the loader creates for it. */
  lemma AsWrittenLevelLosesVoxel(store: map<Coord, bv32>)
    requires IsModelStore(Model(1, 1, 2, [0, 5]), store)
    ensures Coord(0, 1, 0) in store && store[Coord(0, 1, 0)] == LeafWord(5)
    ensures !InBox(AsWrittenLevelSize(Model(1, 1, 2, [0, 5])), Coord(0, 1, 0))
  {
    var tall := Model(1, 1, 2, [0, 5]);
    assert FromModel(tall, Coord(0, 1, 0));
    assert Index(tall, 0, 0, 1) == 1;
    assert ColorAt(tall, Coord(0, 1, 0)) == 5;
  }

  /** A scene as the vox parser returns it: one shared palette and its models. */
  datatype Scene = Scene(palette: seq<Rgba>, models: seq<Model>)

  datatype Result<T> = Success(value: T) | Failure(error: string)

  /** Loading supports exactly one model per file; any other count stops the
      loader. */
  method FetchData(scene: Scene) returns (r: Result<VoxData>)
    requires |scene.models| == 1 ==> WellFormed(scene.models[0])
    ensures r.Failure? <==> |scene.models| != 1
    ensures r.Success? ==> (|r.value.palette| == |scene.palette| &&
      r.value.level.size == AsWrittenLevelSize(scene.models[0]) &&
      IsModelStore(scene.models[0], r.value.level.voxels))
    ensures r.Success? ==>
      forall i :: 0 <= i < |scene.palette| ==> UnpackColor(r.value.palette[i]) == scene.palette[i]
  {
    if |scene.models| != 1 {
      return Failure("Only one model is supported");
    }
    var data := ParseModel(scene.palette, scene.models[0]);
    r := Success(data);
  }
}
