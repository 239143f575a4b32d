/** The offsets embedded in the compacted buffer: word i carries the running
    child count, and that count is the position in the buffer where node i's
    children begin.

    The proofs here work from the one-step equations of the list functions
    (the `...Step` lemmas) with every definition hidden, so that each proof
    only sees the facts it names. */
module SvoOffsets {
  import opened Bits
  import opened Levels
  import opened SvoBuffer
  import opened SvoLayout

  // ---------------------------------------------------------------------
  // The buffer words and the counter

  /** Word i of the buffer is node word i with the offset accumulated over
      the words before it. */
  lemma {:induction false} WordsIndex(codes: seq<bv32>)
    ensures |Words(codes)| == |codes|
    ensures forall i :: 0 <= i < |codes| ==> Words(codes)[i] == Embed(codes[i], AccumAfter(codes[..i]))
    decreases |codes|
  {
    hide *;
    if codes == [] {
      EmptyWords();
    } else {
      var init := codes[..|codes| - 1];
      WordsStep(codes);
      WordsIndex(init);
      forall i | 0 <= i < |codes| ensures Words(codes)[i] == Embed(codes[i], AccumAfter(codes[..i])) {
        if i < |init| {
          assert init[..i] == codes[..i];
        } else {
          assert codes[..i] == init;
        }
      }
    }
  }

  /** Emission only appends: the buffer of a prefix of the node words is a
      prefix of the buffer. */
  lemma {:induction false} WordsPrefix(codes: seq<bv32>, n: nat)
    requires n <= |codes|
    ensures |Words(codes)| == |codes|
    ensures Words(codes[..n]) == Words(codes)[..n]
    decreases |codes|
  {
    hide *;
    WordsIndex(codes);
    if n < |codes| {
      var init := codes[..|codes| - 1];
      WordsStep(codes);
      WordsPrefix(init, n);
      assert init[..n] == codes[..n];
      assert Words(codes)[..n] == Words(init)[..n];
    } else {
      assert codes[..n] == codes;
    }
  }

  /** The total of the mask-bit counts of the given node words. */
  function MaskSum(codes: seq<bv32>): nat
    decreases |codes|
  {
    if codes == [] then 0 else MaskSum(codes[..|codes| - 1]) + MaskBits(codes[|codes| - 1])
  }

  lemma MaskSumStep(codes: seq<bv32>)
    ensures codes == [] ==> MaskSum(codes) == 0
    ensures codes != [] ==> MaskSum(codes) == MaskSum(codes[..|codes| - 1]) + MaskBits(codes[|codes| - 1])
  {
  }

  lemma {:induction false} MaskSumConcat(a: seq<bv32>, b: seq<bv32>)
    ensures MaskSum(a + b) == MaskSum(a) + MaskSum(b)
    decreases |b|
  {
    hide *;
    MaskSumStep(b);
    if b == [] {
      assert a + b == a;
    } else {
      var init := b[..|b| - 1];
      MaskSumConcat(a, init);
      MaskSumStep(a + b);
      assert (a + b)[..|a + b| - 1] == a + init;
      assert (a + b)[|a + b| - 1] == b[|b| - 1];
    }
  }

  /** One step of the counter adds the word's mask-bit count, wrapped. */
  lemma AdvanceStep(accum: U32, code: bv32)
    ensures Advance(accum, code) == Wrap(accum + MaskBits(code))
  {
  }

  /** Wrapping before adding more does not change the wrapped sum. */
  lemma WrapAdd(a: int, m: int)
    ensures Wrap(Wrap(a) + m) == Wrap(a + m)
  {
  }

  lemma WrapOne()
    ensures Wrap(1) == 1
  {
  }

  /** The builder's counter after some node words is 1 plus their mask-bit
      counts, modulo 2^32. */
  lemma {:induction false} AccumCounts(codes: seq<bv32>)
    ensures AccumAfter(codes) == Wrap(1 + MaskSum(codes))
    decreases |codes|
  {
    hide *;
    MaskSumStep(codes);
    if codes == [] {
      EmptyWords();
      WrapOne();
    } else {
      var init, last := codes[..|codes| - 1], codes[|codes| - 1];
      WordsStep(codes);
      AccumCounts(init);
      AdvanceStep(AccumAfter(init), last);
      WrapAdd(1 + MaskSum(init), MaskBits(last));
      assert 1 + MaskSum(codes) == 1 + MaskSum(init) + MaskBits(last);
    }
  }

  /** Before wrap-around the offsets never decrease along the buffer: the
      offset embedded in word j is at least the one in word i, for i <= j,
      and the counter stays below 2^32 as long as the unwrapped one does. */
  lemma OffsetsNonDecreasing(codes: seq<bv32>, i: nat, j: nat)
    requires i <= j <= |codes|
    ensures 1 + MaskSum(codes[..i]) <= 1 + MaskSum(codes[..j])
    ensures 1 + MaskSum(codes[..j]) < Modulus ==> AccumAfter(codes[..i]) <= AccumAfter(codes[..j])
  {
    var a, b := codes[..i], codes[..j];
    assert b == a + codes[i..j];
    hide *;
    MaskSumConcat(a, codes[i..j]);
    AccumCounts(a);
    AccumCounts(b);
    WrapBelow(1 + MaskSum(a));
    WrapBelow(1 + MaskSum(b));
  }

  /** Below 2^32 wrapping changes nothing. */
  lemma WrapBelow(n: nat)
    ensures n < Modulus ==> Wrap(n) == n
  {
  }

  // ---------------------------------------------------------------------
  // Block sizes

  /** What the offsets rely on from the level builders: at every depth but
      the deepest, the mask of each visited node counts exactly its nonzero
      children one level down. */
  predicate MasksAnnounceChildren(levels: seq<Level>) {
    forall d: nat, c :: d < |levels| - 1 && c in Active(levels, d) ==> Announces(levels, d, c)
  }

  /** The mask of node c at depth d counts its nonzero children. */
  predicate Announces(levels: seq<Level>, d: nat, c: Coord)
    requires d < |levels| - 1
  {
    MaskBits(Load(LevelAt(levels, d), c)) == |Occupied(LevelAt(levels, d + 1), Children(c))|
  }

  /** The hypothesis at one depth, for every node of that depth. */
  lemma Announced(levels: seq<Level>, d: nat)
    requires MasksAnnounceChildren(levels) && d < |levels| - 1
    ensures forall p :: p in Active(levels, d) ==>
      MaskBits(Load(LevelAt(levels, d), p)) == |Occupied(LevelAt(levels, d + 1), Children(p))|
  {
    forall p | p in Active(levels, d)
      ensures MaskBits(Load(LevelAt(levels, d), p)) == |Occupied(LevelAt(levels, d + 1), Children(p))|
    {
      assert Announces(levels, d, p);
    }
  }

  /** The hypothesis for node j of depth d. */
  lemma AnnouncedAt(levels: seq<Level>, d: nat, j: nat)
    requires MasksAnnounceChildren(levels) && d < |levels| - 1 && j < |Active(levels, d)|
    ensures var p := Active(levels, d)[j];
      MaskBits(Load(LevelAt(levels, d), p)) == |Occupied(LevelAt(levels, d + 1), Children(p))|
  {
    assert Announces(levels, d, Active(levels, d)[j]);
  }

  /** When every parent's mask counts its nonzero children, the nonzero
      children of a list of parents are as many as their masks announce. */
  lemma {:induction false} BlockSizes(parent: Level, child: Level, ps: seq<Coord>)
    requires forall p :: p in ps ==> MaskBits(Load(parent, p)) == |Occupied(child, Children(p))|
    ensures |Occupied(child, Candidates(ps))| == MaskSum(Codes(parent, ps))
    decreases |ps|
  {
    hide *;
    if ps == [] {
      EmptyLists(parent);
      EmptyLists(child);
      MaskSumStep(Codes(parent, ps));
    } else {
      var init, last := ps[..|ps| - 1], ps[|ps| - 1];
      SnocSteps(parent, ps);
      assert forall p :: p in init ==> p in ps;
      BlockSizes(parent, child, init);
      OccupiedConcat(child, Candidates(init), Children(last));
      var prior := Codes(parent, init);
      MaskSumStep(prior + [Load(parent, last)]);
      assert (prior + [Load(parent, last)])[..|prior|] == prior;
      assert last in ps;
    }
  }

  /** A nonzero node at some depth means a nonzero root. */
  lemma RootOfActive(levels: seq<Level>, d: nat)
    requires d < |levels| && Active(levels, d) != []
    ensures Load(LevelAt(levels, 0), Origin) != 0
  {
    hide *;
    if Load(LevelAt(levels, 0), Origin) == 0 {
      EmptyRootEmitsNothing(levels, d);
      assert false;
    }
  }

  /** The children of depth d begin right after the nodes of depths 0 .. d:
      the counter before depth d reaches the number of nodes through depth d. */
  lemma {:induction false} DepthStart(levels: seq<Level>, d: nat)
    requires MasksAnnounceChildren(levels)
    requires d < |levels| && Load(LevelAt(levels, 0), Origin) != 0
    ensures 1 + MaskSum(CodesThrough(levels, d)) == |NodesThrough(levels, d + 1)|
  {
    hide *;
    if d == 0 {
      DepthRoot(levels);
    } else {
      DepthStart(levels, d - 1);
      DepthStep(levels, d - 1);
    }
  }

  /** Depth 0: the root's children begin right after the root. */
  lemma DepthRoot(levels: seq<Level>)
    requires |levels| > 0 && Load(LevelAt(levels, 0), Origin) != 0
    ensures 1 + MaskSum(CodesThrough(levels, 0)) == |NodesThrough(levels, 1)|
  {
    hide *;
    ThroughZero(levels);
    NodesStep(levels, 0);
    ActiveRoot(levels);
    MaskSumStep([]);
  }

  /** One depth further: the children of depth e + 1 begin after the nodes
      of depths 0 .. e + 1. */
  lemma DepthStep(levels: seq<Level>, e: nat)
    requires MasksAnnounceChildren(levels) && e + 1 < |levels|
    requires 1 + MaskSum(CodesThrough(levels, e)) == |NodesThrough(levels, e + 1)|
    ensures 1 + MaskSum(CodesThrough(levels, e + 1)) == |NodesThrough(levels, e + 2)|
  {
    var parent, child, parents := LevelAt(levels, e), LevelAt(levels, e + 1), Active(levels, e);
    Announced(levels, e);
    hide *;
    CodesStep(levels, e);
    NodesStep(levels, e + 1);
    NextDepth(levels, e + 1);
    MaskSumConcat(CodesThrough(levels, e), Codes(parent, parents));
    BlockSizes(parent, child, parents);
  }

  // ---------------------------------------------------------------------
  // Positions in the node order

  lemma PrefixOfConcat<T>(a: seq<T>, b: seq<T>, s: seq<T>)
    requires |s| <= |a| && a[..|s|] == s
    ensures (a + b)[..|s|] == s
  {
    assert (a + b)[..|s|] == a[..|s|];
  }

  lemma {:induction false} NodesThroughPrefix(levels: seq<Level>, d: nat, e: nat)
    requires d <= e <= |levels|
    ensures |NodesThrough(levels, d)| <= |NodesThrough(levels, e)|
    ensures NodesThrough(levels, e)[..|NodesThrough(levels, d)|] == NodesThrough(levels, d)
    decreases e
  {
    hide *;
    if d < e {
      NodesStep(levels, e - 1);
      NodesThroughPrefix(levels, d, e - 1);
      PrefixOfConcat(NodesThrough(levels, e - 1), Active(levels, e - 1), NodesThrough(levels, d));
    }
  }

  lemma {:induction false} CodesThroughPrefix(levels: seq<Level>, d: nat, e: nat)
    requires d <= e <= |levels|
    ensures |CodesThrough(levels, d)| <= |CodesThrough(levels, e)|
    ensures CodesThrough(levels, e)[..|CodesThrough(levels, d)|] == CodesThrough(levels, d)
    decreases e
  {
    hide *;
    if d < e {
      CodesStep(levels, e - 1);
      CodesThroughPrefix(levels, d, e - 1);
      var level := LevelAt(levels, e - 1);
      PrefixOfConcat(CodesThrough(levels, e - 1), Codes(level, Active(levels, e - 1)), CodesThrough(levels, d));
    }
  }

  lemma CodesPrefix(level: Level, cs: seq<Coord>, j: nat)
    requires j <= |cs|
    ensures |Codes(level, cs)| == |cs|
    ensures Codes(level, cs)[..j] == Codes(level, cs[..j])
  {
    hide *;
    CodesIndex(level, cs);
    CodesIndex(level, cs[..j]);
  }

  /** Position |prior| + j of a sequence that starts with prior + part holds
      part[j], and is preceded by prior and the first j entries of part. */
  lemma InPart(all: seq<bv32>, prior: seq<bv32>, part: seq<bv32>, j: nat)
    requires |prior| + |part| <= |all| && all[..|prior| + |part|] == prior + part
    requires j < |part|
    ensures all[|prior| + j] == part[j]
    ensures all[..|prior| + j] == prior + part[..j]
  {
    assert all[|prior| + j] == (prior + part)[|prior| + j];
    assert all[..|prior| + j] == (prior + part)[..|prior| + j];
  }

  lemma NodeInPart(all: seq<Coord>, upto: seq<Coord>, prior: seq<Coord>, part: seq<Coord>, j: nat)
    requires |upto| <= |all| && all[..|upto|] == upto && upto == prior + part
    requires j < |part|
    ensures |prior| + j < |all| && all[|prior| + j] == part[j]
  {
    assert all[|prior| + j] == upto[|prior| + j];
  }

  /** Node j of depth d sits at position |NodesThrough(d)| + j of the node
      order. */
  lemma NodeAt(levels: seq<Level>, d: nat, j: nat)
    requires d < |levels| && j < |Active(levels, d)|
    ensures |NodesThrough(levels, d)| + j < |AllNodes(levels)|
    ensures AllNodes(levels)[|NodesThrough(levels, d)| + j] == Active(levels, d)[j]
  {
    hide *;
    AllThrough(levels);
    NodesThroughPrefix(levels, d + 1, |levels|);
    NodesStep(levels, d);
    NodeInPart(AllNodes(levels), NodesThrough(levels, d + 1), NodesThrough(levels, d), Active(levels, d), j);
  }

  /** The word of node j of depth d sits at the same position of the
      emitted words, and the words before it are those of the earlier depths
      and of the nodes before it at depth d. */
  lemma CodeAt(levels: seq<Level>, d: nat, j: nat)
    requires d < |levels| && j < |Active(levels, d)|
    ensures |EmittedCodes(levels)| == |AllNodes(levels)|
    ensures |NodesThrough(levels, d)| + j < |EmittedCodes(levels)|
    ensures var codes, i := EmittedCodes(levels), |NodesThrough(levels, d)| + j;
      codes[i] == Load(LevelAt(levels, d), Active(levels, d)[j]) &&
      codes[..i] == CodesThrough(levels, d) + Codes(LevelAt(levels, d), Active(levels, d)[..j])
  {
    hide *;
    var level, active := LevelAt(levels, d), Active(levels, d);
    var prior := CodesThrough(levels, d);
    AllThrough(levels);
    CodesThroughLength(levels, |levels|);
    CodesThroughLength(levels, d);
    NodeAt(levels, d, j);
    CodesThroughPrefix(levels, d + 1, |levels|);
    CodesIndex(level, active);
    CodesPrefix(level, active, j);
    CodesStep(levels, d);
    InPart(EmittedCodes(levels), prior, Codes(level, active), j);
  }

  // ---------------------------------------------------------------------
  // The children's block

  lemma SplitAt<T>(s: seq<T>, j: nat)
    requires j < |s|
    ensures s == s[..j] + [s[j]] + s[j + 1..]
  {
  }

  /** Splitting a list of parents around entry j splits its candidates. */
  lemma CandidatesSplit(ps: seq<Coord>, j: nat)
    requires j < |ps|
    ensures Candidates(ps) == Candidates(ps[..j]) + Children(ps[j]) + Candidates(ps[j + 1..])
  {
    hide *;
    var before, p, after := ps[..j], ps[j], ps[j + 1..];
    SplitAt(ps, j);
    CandidatesSingle(p);
    CandidatesConcat(before + [p], after);
    CandidatesConcat(before, [p]);
  }

  lemma OccupiedSplit(level: Level, a: seq<Coord>, b: seq<Coord>, c: seq<Coord>)
    ensures Occupied(level, a + b + c) == Occupied(level, a) + Occupied(level, b) + Occupied(level, c)
  {
    hide *;
    OccupiedConcat(level, a + b, c);
    OccupiedConcat(level, a, b);
  }

  /** Depth d + 1 lists the nonzero children of the parents before node j,
      then those of node j, then those of the parents after it. */
  lemma NextDepthSplit(levels: seq<Level>, d: nat, j: nat)
    requires d < |levels| - 1 && j < |Active(levels, d)|
    ensures var active, child := Active(levels, d), LevelAt(levels, d + 1);
      Active(levels, d + 1) ==
        Occupied(child, Candidates(active[..j])) + Occupied(child, Children(active[j]))
        + Occupied(child, Candidates(active[j + 1..]))
  {
    hide *;
    var active, child := Active(levels, d), LevelAt(levels, d + 1);
    NextDepth(levels, d + 1);
    CandidatesSplit(active, j);
    OccupiedSplit(child, Candidates(active[..j]), Children(active[j]), Candidates(active[j + 1..]));
  }

  /** s lists block from position start on. */
  predicate SliceIs(s: seq<Coord>, start: nat, block: seq<Coord>) {
    start + |block| <= |s| && s[start..start + |block|] == block
  }

  lemma SliceOfPrefix(s: seq<Coord>, a: seq<Coord>, b: seq<Coord>, c: seq<Coord>)
    requires |a| + |b| + |c| <= |s| && s[..|a| + |b| + |c|] == a + b + c
    ensures SliceIs(s, |a|, b)
  {
    assert s[|a|..|a| + |b|] == (a + b + c)[|a|..|a| + |b|];
  }

  /** The nonzero children of node j of depth d appear in the node order as
      one block, after all nodes through depth d and the nonzero children of
      the nodes before j. */
  lemma BlockInNodes(levels: seq<Level>, d: nat, j: nat)
    requires d < |levels| - 1 && j < |Active(levels, d)|
    ensures var active, child := Active(levels, d), LevelAt(levels, d + 1);
      var start := |NodesThrough(levels, d + 1)| + |Occupied(child, Candidates(active[..j]))|;
      SliceIs(AllNodes(levels), start, Occupied(child, Children(active[j])))
  {
    hide *;
    var active, child := Active(levels, d), LevelAt(levels, d + 1);
    var head := NodesThrough(levels, d + 1) + Occupied(child, Candidates(active[..j]));
    var block := Occupied(child, Children(active[j]));
    var tail := Occupied(child, Candidates(active[j + 1..]));
    AllThrough(levels);
    NextDepthSplit(levels, d, j);
    NodesStep(levels, d + 1);
    assert NodesThrough(levels, d + 2) == head + block + tail;
    NodesThroughPrefix(levels, d + 2, |levels|);
    SliceOfPrefix(AllNodes(levels), head, block, tail);
  }

  /** The counter before node j of depth d points past all nodes through
      depth d and the nonzero children of the nodes before j. */
  lemma StartOfBlock(levels: seq<Level>, d: nat, j: nat)
    requires MasksAnnounceChildren(levels)
    requires d < |levels| - 1 && j < |Active(levels, d)|
    ensures var active, level, child := Active(levels, d), LevelAt(levels, d), LevelAt(levels, d + 1);
      1 + MaskSum(CodesThrough(levels, d) + Codes(level, active[..j])) ==
        |NodesThrough(levels, d + 1)| + |Occupied(child, Candidates(active[..j]))|
  {
    var active, level, child := Active(levels, d), LevelAt(levels, d), LevelAt(levels, d + 1);
    Announced(levels, d);
    hide *;
    RootOfActive(levels, d);
    DepthStart(levels, d);
    MaskSumConcat(CodesThrough(levels, d), Codes(level, active[..j]));
    forall q | q in active[..j] ensures MaskBits(Load(level, q)) == |Occupied(child, Children(q))| {
      assert q in active;
    }
    BlockSizes(level, child, active[..j]);
  }

  /** The offset theorem. When the masks announce the children, the offset
      the compactor accumulates for node i (node j of depth d, below the
      deepest depth) is the position in the node order where node i's
      nonzero children begin, and the children listed there, as many as its
      mask announces, are exactly its nonzero children in octant order. */
  lemma ChildBlock(levels: seq<Level>, d: nat, j: nat)
    requires MasksAnnounceChildren(levels)
    requires d < |levels| - 1 && j < |Active(levels, d)|
    ensures |EmittedCodes(levels)| == |AllNodes(levels)|
    ensures |NodesThrough(levels, d)| + j < |AllNodes(levels)|
    ensures var nodes, codes := AllNodes(levels), EmittedCodes(levels);
      var i := |NodesThrough(levels, d)| + j;
      var start := 1 + MaskSum(codes[..i]);
      nodes[i] == Active(levels, d)[j] &&
      var block := Occupied(LevelAt(levels, d + 1), Children(nodes[i]));
      codes[i] == Load(LevelAt(levels, d), nodes[i]) &&
      MaskBits(codes[i]) == |block| && SliceIs(nodes, start, block)
  {
    hide *;
    NodeAt(levels, d, j);
    CodeAt(levels, d, j);
    StartOfBlock(levels, d, j);
    BlockInNodes(levels, d, j);
    AnnouncedAt(levels, d, j);
  }

  /** The offset theorem on the buffer: word i is node i's word with the
      position of its first child embedded, modulo 2^32. */
  lemma BufferOffsets(levels: seq<Level>, d: nat, j: nat)
    requires MasksAnnounceChildren(levels)
    requires d < |levels| - 1 && j < |Active(levels, d)|
    ensures |EmittedCodes(levels)| == |AllNodes(levels)|
    ensures |NodesThrough(levels, d)| + j < |AllNodes(levels)|
    ensures var nodes, codes := AllNodes(levels), EmittedCodes(levels);
      var i := |NodesThrough(levels, d)| + j;
      var start := 1 + MaskSum(codes[..i]);
      var block := Occupied(LevelAt(levels, d + 1), Children(Active(levels, d)[j]));
      |Words(codes)| == |codes| && Words(codes)[i] == Embed(codes[i], Wrap(start)) &&
      MaskBits(codes[i]) == |block| && SliceIs(nodes, start, block)
  {
    hide *;
    var codes := EmittedCodes(levels);
    var i := |NodesThrough(levels, d)| + j;
    ChildBlock(levels, d, j);
    WordsIndex(codes);
    AccumCounts(codes[..i]);
  }
}
