/** Compaction of the octree levels into one flat word buffer: the levels are
    visited from the root down, breadth first, and every nonzero node word is
    emitted with the running child offset embedded in its upper half. */
module SvoBuffer {
  import opened Bits
  import opened Levels

  /** The root node's coordinate in the root level. */
  const Origin: Coord := Coord(0, 0, 0)

  /** Offset of child octant k (0 <= k < 8) inside its parent's 2x2x2 block,
      in the order the builder visits them: x outermost, then y, then z. */
  function Octant(k: nat): Coord
    requires k < 8
  {
    Coord(k / 4, (k / 2) % 2, k % 2)
  }

  /** The eight child coordinates of a node, `2 * p + octant`, in visiting order. */
  function Children(p: Coord): (r: seq<Coord>) {
    seq(8, k requires 0 <= k < 8 => Plus(Double(p), Octant(k)))
  }

  /** The child coordinates of a list of parents, parent by parent. */
  function Candidates(parents: seq<Coord>): seq<Coord>
    decreases |parents|
  {
    if parents == [] then []
    else Candidates(parents[..|parents| - 1]) + Children(parents[|parents| - 1])
  }

  /** The coordinates among `cs` whose word in `level` is nonzero, in order. */
  function Occupied(level: Level, cs: seq<Coord>): seq<Coord>
    decreases |cs|
  {
    if cs == [] then []
    else
      var c := cs[|cs| - 1];
      Occupied(level, cs[..|cs| - 1]) + (if Load(level, c) != 0 then [c] else [])
  }

  /** The words stored at the given coordinates. */
  function Codes(level: Level, cs: seq<Coord>): seq<bv32>
    decreases |cs|
  {
    if cs == [] then [] else Codes(level, cs[..|cs| - 1]) + [Load(level, cs[|cs| - 1])]
  }

  /** The level at depth d below the root; the root level is the last one built. */
  function LevelAt(levels: seq<Level>, d: nat): Level
    requires d < |levels|
  {
    levels[|levels| - 1 - d]
  }

  /** The active (emitted) coordinates at depth d: the root if its word is
      nonzero, then at every further depth the nonzero children of the
      previous depth's active coordinates. */
  function Active(levels: seq<Level>, d: nat): seq<Coord>
    requires d < |levels|
  {
    if d == 0 then Occupied(LevelAt(levels, 0), [Origin])
    else Occupied(LevelAt(levels, d), Candidates(Active(levels, d - 1)))
  }

  /** The node words of depths 0 .. d-1, in emission order. */
  function CodesThrough(levels: seq<Level>, d: nat): seq<bv32>
    requires d <= |levels|
  {
    if d == 0 then []
    else CodesThrough(levels, d - 1) + Codes(LevelAt(levels, d - 1), Active(levels, d - 1))
  }

  /** All node words the compactor emits, in order. */
  function EmittedCodes(levels: seq<Level>): seq<bv32> {
    CodesThrough(levels, |levels|)
  }

  /** The builder's offset counter is an unsigned 32-bit integer. */
  const Modulus: int := 0x1_0000_0000

  type U32 = n: int | 0 <= n < 0x1_0000_0000

  /** The emitted word: the node word with the offset shifted in from bit 16;
      offset bits above bit 15 fall off the word. */
  function Embed(code: bv32, accum: U32): bv32 {
    code | ((accum as bv32) << 16)
  }

  /** The word keeps the node word and the offset apart only while the
      offset fits in 14 bits and the node word leaves bits 16 to 29 clear:
      then the node word is the word's low half and top two bits, and the
      offset is bits 16 to 29. */
  lemma EmbedLossless(code: bv32, accum: U32)
    requires accum < 0x4000 && code & 0x3FFF_0000 == 0
    ensures Embed(code, accum) & 0xC000_FFFF == code
    ensures (Embed(code, accum) >> 16) & 0x3FFF == accum as bv32
  {
    hide *;
    SmallOffset(accum);
    FieldsApart(code, accum as bv32);
    EmbedFields(code, accum);
  }

  lemma SmallOffset(accum: U32)
    requires accum < 0x4000
    ensures accum as bv32 < 0x4000
  {
  }

  lemma EmbedFields(code: bv32, accum: U32)
    ensures Embed(code, accum) == code | ((accum as bv32) << 16)
  {
  }

  lemma FieldsApart(code: bv32, a: bv32)
    requires a < 0x4000 && code & 0x3FFF_0000 == 0
    ensures (code | (a << 16)) & 0xC000_FFFF == code
    ensures ((code | (a << 16)) >> 16) & 0x3FFF == a
  {
  }

  /** Neither condition is checked by the builder: an offset of 2^14 sets
      the leaf flag bit 30, and an offset of 2^16 leaves no trace. */
  lemma EmbedCollisions()
    ensures Embed(0, 0x4000) == Embed(0x4000_0000, 0)
    ensures Embed(0x0100, 0x1_0000) == Embed(0x0100, 0)
  {
  }

  /** The running offset after the given words were emitted: it starts at 1
      and grows by the child count of each emitted word, in 32-bit arithmetic. */
  function AccumAfter(codes: seq<bv32>): U32
    decreases |codes|
  {
    if codes == [] then 1
    else Advance(AccumAfter(codes[..|codes| - 1]), codes[|codes| - 1])
  }

  /** The running offset after one more node word: it grows by the number
      of children the word's mask announces, wrapping at 2^32 like the
      builder's unsigned counter. */
  function Advance(accum: U32, code: bv32): U32 {
    Wrap(accum + MaskBits(code))
  }

  /** The builder's step, `accum += bitCount(data & 0xFF00)`: the parallel
      count of the mask bits is the announced child count. */
  function AddChildCount(accum: U32, code: bv32): (r: U32)
    ensures r == Advance(accum, code)
  {
    BitCountOfMask(code);
    Wrap(accum + ChildCount(code) as int)
  }

  /** An integer reduced to the 32-bit range, as unsigned arithmetic does. */
  function Wrap(n: int): U32 {
    n % Modulus
  }

  /** The buffer for a sequence of emitted node words. */
  function Words(codes: seq<bv32>): seq<bv32>
    decreases |codes|
  {
    if codes == [] then []
    else
      var prefix := codes[..|codes| - 1];
      Words(prefix) + [Embed(codes[|codes| - 1], AccumAfter(prefix))]
  }

  /** The list functions on an empty list. */
  lemma EmptyLists(level: Level)
    ensures Candidates([]) == [] && Occupied(level, []) == [] && Codes(level, []) == []
  {
  }

  /** No words: an empty buffer and the counter's start value. */
  lemma EmptyWords()
    ensures Words([]) == [] && AccumAfter([]) == 1
  {
  }

  /** One more coordinate at the end of a list: its candidates, its nonzero
      coordinates and its words each grow at the end. */
  lemma SnocSteps(level: Level, cs: seq<Coord>)
    requires cs != []
    ensures var init, c := cs[..|cs| - 1], cs[|cs| - 1];
      Candidates(cs) == Candidates(init) + Children(c) &&
      Occupied(level, cs) == Occupied(level, init) + (if Load(level, c) != 0 then [c] else []) &&
      Codes(level, cs) == Codes(level, init) + [Load(level, c)]
  {
  }

  /** One more node word: the buffer grows by its embedded form and the
      counter advances. */
  lemma WordsStep(codes: seq<bv32>)
    requires codes != []
    ensures var init := codes[..|codes| - 1];
      Words(codes) == Words(init) + [Embed(codes[|codes| - 1], AccumAfter(init))] &&
      AccumAfter(codes) == Advance(AccumAfter(init), codes[|codes| - 1])
  {
  }

  /** The words of depths 0 .. d are those of depths 0 .. d-1 followed by
      those of depth d. */
  lemma CodesStep(levels: seq<Level>, d: nat)
    requires d < |levels|
    ensures CodesThrough(levels, d + 1) == CodesThrough(levels, d) + Codes(LevelAt(levels, d), Active(levels, d))
  {
  }

  lemma OccupiedAppend(level: Level, cs: seq<Coord>, c: Coord)
    ensures Occupied(level, cs + [c]) == Occupied(level, cs) + (if Load(level, c) != 0 then [c] else [])
  {
    assert (cs + [c])[..|cs|] == cs;
  }

  /** Emitting one more nonzero word appends its embedded form to the buffer
      and its child count to the running offset. */
  lemma EmitAppend(emitted: seq<bv32>, level: Level, active: seq<Coord>, c: Coord)
    ensures Codes(level, active + [c]) == Codes(level, active) + [Load(level, c)]
    ensures var prior := emitted + Codes(level, active);
      Words(emitted + Codes(level, active + [c])) == Words(prior) + [Embed(Load(level, c), AccumAfter(prior))] &&
      AccumAfter(emitted + Codes(level, active + [c])) == Advance(AccumAfter(prior), Load(level, c))
  {
    var prior := emitted + Codes(level, active);
    assert (active + [c])[..|active|] == active;
    assert emitted + Codes(level, active + [c]) == prior + [Load(level, c)];
    assert (prior + [Load(level, c)])[..|prior|] == prior;
  }

  /** With an empty root nothing is active at any depth and nothing is emitted. */
  lemma {:induction false} EmptyRootEmitsNothing(levels: seq<Level>, d: nat)
    requires d <= |levels|
    requires |levels| > 0 && Load(LevelAt(levels, 0), Origin) == 0
    ensures CodesThrough(levels, d) == []
    ensures d < |levels| ==> Active(levels, d) == []
  {
    if d > 0 {
      EmptyRootEmitsNothing(levels, d - 1);
      assert Active(levels, d - 1) == [];
      assert Codes(LevelAt(levels, d - 1), []) == [];
      if d < |levels| {
        assert Candidates(Active(levels, d - 1)) == [];
      }
    } else {
      OccupiedAppend(LevelAt(levels, 0), [], Origin);
    }
  }

  lemma OccupiedSingle(level: Level, c: Coord)
    requires Load(level, c) != 0
    ensures Occupied(level, [c]) == [c]
    ensures Codes(level, [c]) == [Load(level, c)]
  {
    OccupiedAppend(level, [], c);
  }

  lemma ActiveRoot(levels: seq<Level>)
    requires |levels| > 0 && Load(LevelAt(levels, 0), Origin) != 0
    ensures Active(levels, 0) == [Origin]
  {
    OccupiedSingle(LevelAt(levels, 0), Origin);
  }

  lemma CodesOfRoot(levels: seq<Level>)
    requires |levels| > 0
    ensures CodesThrough(levels, 1) == Codes(LevelAt(levels, 0), Active(levels, 0))
  {
  }

  /** A nonzero root is the only active node at depth 0 and the first word. */
  lemma RootEmitted(levels: seq<Level>, root: Level)
    requires |levels| > 0 && root == LevelAt(levels, 0) && Load(root, Origin) != 0
    ensures Active(levels, 0) == [Origin]
    ensures CodesThrough(levels, 1) == [Load(root, Origin)]
  {
    ActiveRoot(levels);
    CodesOfRoot(levels);
    OccupiedSingle(root, Origin);
  }

  /** The buffer and the offset after a single word. */
  lemma FirstWord(data: bv32)
    ensures Words([data]) == [Embed(data, 1)]
    ensures AccumAfter([data]) == Advance(1, data)
  {
    assert [data][..0] == [];
  }

  /** One more depth: its active coordinates come from the previous depth's,
      and its words follow the earlier ones. */
  lemma NextDepth(levels: seq<Level>, d: nat)
    requires 0 < d < |levels|
    ensures LevelAt(levels, d) == levels[|levels| - 1 - d]
    ensures Active(levels, d) == Occupied(LevelAt(levels, d), Candidates(Active(levels, d - 1)))
    ensures CodesThrough(levels, d + 1) == CodesThrough(levels, d) + Codes(LevelAt(levels, d), Active(levels, d))
  {
  }

  /** Scanning one more octant of a block appends that child. */
  lemma ScanStep(before: seq<Coord>, p: Coord, k: nat)
    requires k < 8
    ensures before + Children(p)[..k + 1] == (before + Children(p)[..k]) + [Plus(Double(p), Octant(k))]
  {
    assert Children(p)[..k + 1] == Children(p)[..k] + [Children(p)[k]];
  }

  /** Scans the 2x2x2 block of parent p in octant order, emitting every
      nonzero child word: `active`, `buffer` and `accum` describe the words
      emitted so far, as the prefix `emitted` of earlier depths followed by
      the nonzero coordinates among `before` at this depth. */
  method EmitBlock(level: Level, p: Coord, ghost emitted: seq<bv32>, ghost before: seq<Coord>,
                   active: seq<Coord>, buffer: seq<bv32>, accum: U32)
    returns (active': seq<Coord>, buffer': seq<bv32>, accum': U32)
    requires active == Occupied(level, before)
    requires buffer == Words(emitted + Codes(level, active))
    requires accum == AccumAfter(emitted + Codes(level, active))
    ensures active' == Occupied(level, before + Children(p))
    ensures buffer' == Words(emitted + Codes(level, active'))
    ensures accum' == AccumAfter(emitted + Codes(level, active'))
  {
    active', buffer', accum' := active, buffer, accum;
    var k := 0;
    assert before + Children(p)[..0] == before;
    while k < 8
      invariant 0 <= k <= 8
      invariant active' == Occupied(level, before + Children(p)[..k])
      invariant buffer' == Words(emitted + Codes(level, active'))
      invariant accum' == AccumAfter(emitted + Codes(level, active'))
    {
      var coor := Plus(Double(p), Octant(k));
      ghost var scanned := before + Children(p)[..k];
      ScanStep(before, p, k);
      OccupiedAppend(level, scanned, coor);
      var data := Load(level, coor);
      if data != 0 {
        EmitAppend(emitted, level, active', coor);
        active' := active' + [coor];
        buffer' := buffer' + [Embed(data, accum')];
        accum' := AddChildCount(accum', data);
      }
      k := k + 1;
    }
    assert Children(p)[..8] == Children(p);
  }

  /** Emits the nonzero children of every active parent, parent by parent:
      the active coordinates of the next depth and their words. */
  method EmitLevel(level: Level, parents: seq<Coord>, ghost emitted: seq<bv32>, buffer: seq<bv32>, accum: U32)
    returns (active: seq<Coord>, buffer': seq<bv32>, accum': U32)
    requires buffer == Words(emitted) && accum == AccumAfter(emitted)
    ensures active == Occupied(level, Candidates(parents))
    ensures buffer' == Words(emitted + Codes(level, active))
    ensures accum' == AccumAfter(emitted + Codes(level, active))
  {
    active, buffer', accum' := [], buffer, accum;
    assert Codes(level, []) == [] && emitted + [] == emitted;
    var i := 0;
    while i < |parents|
      invariant 0 <= i <= |parents|
      invariant active == Occupied(level, Candidates(parents[..i]))
      invariant buffer' == Words(emitted + Codes(level, active))
      invariant accum' == AccumAfter(emitted + Codes(level, active))
    {
      assert parents[..i + 1][..i] == parents[..i];
      active, buffer', accum' := EmitBlock(level, parents[i], emitted, Candidates(parents[..i]), active, buffer', accum');
      i := i + 1;
    }
    assert parents[..|parents|] == parents;
  }

  /** Emits the root word when the root is nonzero: the state after depth 0. */
  method EmitRoot(levels: seq<Level>) returns (activePrev: seq<Coord>, buffer: seq<bv32>, accum: U32)
    requires |levels| > 0 && Load(LevelAt(levels, 0), Origin) != 0
    ensures activePrev == Active(levels, 0)
    ensures buffer == Words(CodesThrough(levels, 1))
    ensures accum == AccumAfter(CodesThrough(levels, 1))
  {
    var data := Load(levels[|levels| - 1], Origin);
    RootEmitted(levels, levels[|levels| - 1]);
    FirstWord(data);
    activePrev := [Origin];
    buffer := [Embed(data, 1)];
    accum := AddChildCount(1, data);
  }

  /** Builds the buffer the way the scene does: the root first, then level by
      level the nonzero children of the previous level's active nodes, each
      parent's block scanned in octant order. */
  method CreateBuffer(levels: seq<Level>) returns (buffer: seq<bv32>)
    requires |levels| > 0
    ensures buffer == Words(EmittedCodes(levels))
  {
    buffer := [];
    if Load(levels[|levels| - 1], Origin) == 0 {
      EmptyRootEmitsNothing(levels, |levels|);
      return;
    }
    var activePrev, accum;
    activePrev, buffer, accum := EmitRoot(levels);
    var imIdx := |levels| - 2;
    ghost var d := 1;
    while imIdx >= 0
      invariant -1 <= imIdx <= |levels| - 2 && d == |levels| - 1 - imIdx
      invariant activePrev == Active(levels, d - 1)
      invariant buffer == Words(CodesThrough(levels, d))
      invariant accum == AccumAfter(CodesThrough(levels, d))
      decreases imIdx
    {
      NextDepth(levels, d);
      activePrev, buffer, accum := EmitLevel(levels[imIdx], activePrev, CodesThrough(levels, d), buffer, accum);
      imIdx := imIdx - 1;
      d := d + 1;
    }
  }
}
