/** What the compacted buffer means: which nodes it lists, in which order,
    and where each node's offset points. */
module SvoLayout {
  import opened Bits
  import opened Levels
  import opened SvoBuffer

  predicate Distinct<T(==)>(s: seq<T>) {
    forall i, j :: 0 <= i < j < |s| ==> s[i] != s[j]
  }

  // ---------------------------------------------------------------------
  // Children and candidates

  /** Child k of p is 2p plus octant k, and halving it gives p back. */
  lemma ChildOf(p: Coord, k: nat)
    requires k < 8
    ensures Children(p)[k] == Plus(Double(p), Octant(k))
    ensures Half(Children(p)[k]) == p
  {
  }

  /** A coordinate is one of p's eight children exactly when halving it
      gives p. */
  lemma ChildrenMember(p: Coord, c: Coord)
    ensures c in Children(p) <==> Half(c) == p
  {
    if c in Children(p) {
      var k :| 0 <= k < 8 && Children(p)[k] == c;
      ChildOf(p, k);
    }
    if Half(c) == p {
      var dx, dy, dz := c.x - 2 * p.x, c.y - 2 * p.y, c.z - 2 * p.z;
      assert 0 <= dx <= 1 && 0 <= dy <= 1 && 0 <= dz <= 1;
      var k := 4 * dx + 2 * dy + dz;
      OctantOf(dx, dy, dz);
      assert Children(p)[k] == c;
    }
  }

  /** Octant 4x + 2y + z is the offset (x, y, z). */
  lemma OctantOf(x: nat, y: nat, z: nat)
    requires x <= 1 && y <= 1 && z <= 1
    ensures Octant(4 * x + 2 * y + z) == Coord(x, y, z)
  {
  }

  /** The eight children of a node are eight different coordinates. */
  lemma ChildrenDistinct(p: Coord)
    ensures Distinct(Children(p))
  {
    forall i, j | 0 <= i < j < 8 ensures Children(p)[i] != Children(p)[j] {
      OctantIndex(i);
      OctantIndex(j);
    }
  }

  /** The octant offsets spell out their index in binary. */
  lemma OctantIndex(k: nat)
    requires k < 8
    ensures 4 * Octant(k).x + 2 * Octant(k).y + Octant(k).z == k
  {
  }

  /** The candidates of a list of parents hold eight entries per parent:
      entry 8i + k is child k of parent i. */
  lemma {:induction false} CandidatesIndex(ps: seq<Coord>)
    ensures |Candidates(ps)| == 8 * |ps|
    ensures forall i, k :: 0 <= i < |ps| && 0 <= k < 8 ==> Candidates(ps)[8 * i + k] == Children(ps[i])[k]
    decreases |ps|
  {
    if ps != [] {
      var init := ps[..|ps| - 1];
      CandidatesIndex(init);
      forall i, k | 0 <= i < |ps| && 0 <= k < 8
        ensures Candidates(ps)[8 * i + k] == Children(ps[i])[k]
      {
        if i < |init| {
          assert ps[i] == init[i];
        }
      }
    }
  }

  lemma {:induction false} CandidatesConcat(a: seq<Coord>, b: seq<Coord>)
    ensures Candidates(a + b) == Candidates(a) + Candidates(b)
    decreases |b|
  {
    if b == [] {
      assert a + b == a;
    } else {
      var init := b[..|b| - 1];
      CandidatesConcat(a, init);
      assert (a + b)[..|a + b| - 1] == a + init;
    }
  }

  lemma CandidatesSingle(p: Coord)
    ensures Candidates([p]) == Children(p)
  {
    var ps := [p];
    assert ps[..0] == [];
    assert Candidates(ps) == Candidates([]) + Children(p);
  }

  /** A coordinate is a candidate exactly when its parent is among the
      parents. */
  lemma {:induction false} CandidatesMember(ps: seq<Coord>, c: Coord)
    ensures c in Candidates(ps) <==> Half(c) in ps
    decreases |ps|
  {
    if ps != [] {
      var init := ps[..|ps| - 1];
      CandidatesMember(init, c);
      ChildrenMember(ps[|ps| - 1], c);
      assert ps == init + [ps[|ps| - 1]];
    }
  }

  /** Distinct parents have distinct candidates. */
  lemma CandidatesDistinct(ps: seq<Coord>)
    requires Distinct(ps)
    ensures Distinct(Candidates(ps))
  {
    CandidatesIndex(ps);
    var cs := Candidates(ps);
    forall a, b | 0 <= a < b < |cs| ensures cs[a] != cs[b] {
      var i, k, j, l := a / 8, a % 8, b / 8, b % 8;
      assert cs[a] == Children(ps[i])[k] && cs[b] == Children(ps[j])[l];
      ChildOf(ps[i], k);
      ChildOf(ps[j], l);
      if i == j {
        ChildrenDistinct(ps[i]);
        assert k != l;
      } else {
        assert ps[i] != ps[j];
      }
    }
  }

  // ---------------------------------------------------------------------
  // Occupied coordinates

  lemma {:induction false} OccupiedMembers(level: Level, cs: seq<Coord>)
    ensures forall c :: c in Occupied(level, cs) <==> c in cs && Load(level, c) != 0
    decreases |cs|
  {
    if cs != [] {
      var init := cs[..|cs| - 1];
      OccupiedMembers(level, init);
      assert cs == init + [cs[|cs| - 1]];
    }
  }

  lemma {:induction false} OccupiedConcat(level: Level, a: seq<Coord>, b: seq<Coord>)
    ensures Occupied(level, a + b) == Occupied(level, a) + Occupied(level, b)
    decreases |b|
  {
    if b == [] {
      assert a + b == a;
    } else {
      var init := b[..|b| - 1];
      OccupiedConcat(level, a, init);
      assert (a + b)[..|a + b| - 1] == a + init;
    }
  }

  lemma DistinctSnoc<T>(s: seq<T>, x: T)
    requires Distinct(s) && x !in s
    ensures Distinct(s + [x])
  {
  }

  /** Filtering a list without repetitions keeps it without repetitions. */
  lemma {:induction false} OccupiedDistinct(level: Level, cs: seq<Coord>)
    requires Distinct(cs)
    ensures Distinct(Occupied(level, cs))
    decreases |cs|
  {
    if cs != [] {
      var init := cs[..|cs| - 1];
      var c := cs[|cs| - 1];
      OccupiedDistinct(level, init);
      OccupiedMembers(level, init);
      if Load(level, c) != 0 {
        DistinctSnoc(Occupied(level, init), c);
      }
    }
  }

  // ---------------------------------------------------------------------
  // The nodes the compactor visits

  /** At depth 0 only the root can be active, and it is active exactly when
      its word is nonzero. */
  lemma RootActive(levels: seq<Level>, c: Coord)
    requires |levels| > 0
    ensures c in Active(levels, 0) <==> c == Origin && Load(LevelAt(levels, 0), c) != 0
  {
    OccupiedMembers(LevelAt(levels, 0), [Origin]);
  }

  /** Below the root, a coordinate is active exactly when its word is
      nonzero and its parent is active one depth up: empty subtrees are
      pruned. */
  lemma ActivePruned(levels: seq<Level>, d: nat, c: Coord)
    requires 0 < d < |levels|
    ensures c in Active(levels, d) <==> Load(LevelAt(levels, d), c) != 0 && Half(c) in Active(levels, d - 1)
  {
    OccupiedMembers(LevelAt(levels, d), Candidates(Active(levels, d - 1)));
    CandidatesMember(Active(levels, d - 1), c);
  }

  /** No coordinate is visited twice at the same depth. */
  lemma {:induction false} ActiveDistinct(levels: seq<Level>, d: nat)
    requires d < |levels|
    ensures Distinct(Active(levels, d))
  {
    if d == 0 {
      OccupiedDistinct(LevelAt(levels, 0), [Origin]);
    } else {
      ActiveDistinct(levels, d - 1);
      CandidatesDistinct(Active(levels, d - 1));
      OccupiedDistinct(LevelAt(levels, d), Candidates(Active(levels, d - 1)));
    }
  }

  /** The visited nodes of depths 0 .. d-1, in visiting order. */
  function NodesThrough(levels: seq<Level>, d: nat): seq<Coord>
    requires d <= |levels|
  {
    if d == 0 then [] else NodesThrough(levels, d - 1) + Active(levels, d - 1)
  }

  /** All visited nodes, in the order their words are emitted. */
  function AllNodes(levels: seq<Level>): seq<Coord> {
    NodesThrough(levels, |levels|)
  }

  /** Nothing is visited or emitted before depth 0. */
  lemma ThroughZero(levels: seq<Level>)
    ensures NodesThrough(levels, 0) == [] && CodesThrough(levels, 0) == []
  {
  }

  /** The nodes of depths 0 .. d are those of depths 0 .. d-1 followed by
      those of depth d. */
  lemma NodesStep(levels: seq<Level>, d: nat)
    requires d < |levels|
    ensures NodesThrough(levels, d + 1) == NodesThrough(levels, d) + Active(levels, d)
  {
  }

  /** All nodes and all words are those through the deepest depth. */
  lemma AllThrough(levels: seq<Level>)
    ensures AllNodes(levels) == NodesThrough(levels, |levels|)
    ensures EmittedCodes(levels) == CodesThrough(levels, |levels|)
  {
  }

  lemma {:induction false} CodesIndex(level: Level, cs: seq<Coord>)
    ensures |Codes(level, cs)| == |cs|
    ensures forall i :: 0 <= i < |cs| ==> Codes(level, cs)[i] == Load(level, cs[i])
    decreases |cs|
  {
    if cs != [] {
      CodesIndex(level, cs[..|cs| - 1]);
    }
  }

  /** The emitted words of a depth prefix are as many as its nodes. */
  lemma {:induction false} CodesThroughLength(levels: seq<Level>, d: nat)
    requires d <= |levels|
    ensures |CodesThrough(levels, d)| == |NodesThrough(levels, d)|
  {
    hide *;
    ThroughZero(levels);
    if d > 0 {
      CodesThroughLength(levels, d - 1);
      CodesIndex(LevelAt(levels, d - 1), Active(levels, d - 1));
      CodesStep(levels, d - 1);
      NodesStep(levels, d - 1);
    }
  }

  /** Every emitted word is nonzero: empty nodes are never written. */
  lemma {:induction false} EmittedNonzero(levels: seq<Level>, d: nat)
    requires d <= |levels|
    ensures forall w :: w in CodesThrough(levels, d) ==> w != 0
  {
    if d > 0 {
      EmittedNonzero(levels, d - 1);
      var level, active := LevelAt(levels, d - 1), Active(levels, d - 1);
      CodesIndex(level, active);
      if d == 1 {
        forall c | c in active ensures Load(level, c) != 0 {
          RootActive(levels, c);
        }
      } else {
        forall c | c in active ensures Load(level, c) != 0 {
          ActivePruned(levels, d - 1, c);
        }
      }
    }
  }
}
