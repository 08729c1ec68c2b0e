/** The tests of a search over enclosing boxes (contrib/cube/cube.c): which matches an inner
    test can prune. */
module CubeSearch {
  import opened CubeBox
  import opened CubeOrder

  datatype Strategy = Overlaps | Same | ContainsQuery | ContainedBy

  /** g_cube_leaf_consistent */
  predicate LeafConsistent(key: Cube, query: Cube, s: Strategy) {
    match s
    case Overlaps => Overlap(key, query)
    case Same => Cmp(key, query) == 0
    case ContainsQuery => Contains(key, query)
    case ContainedBy => Contains(query, key)
  }

  /** g_cube_internal_consistent */
  predicate InnerConsistent(key: Cube, query: Cube, s: Strategy) {
    match s
    case Overlaps => Overlap(key, query)
    case Same => Contains(key, query)
    case ContainsQuery => Contains(key, query)
    case ContainedBy => Overlap(key, query)
  }

  /** g_cube_consistent */
  method GCubeConsistent(key: Cube, query: Cube, s: Strategy, isLeaf: bool) returns (r: bool)
    ensures r == if isLeaf then LeafConsistent(key, query, s) else InnerConsistent(key, query, s)
  {
    match s
    case Overlaps =>
      r := CubeOverlap(key, query);
    case Same =>
      if isLeaf {
        var c := CubeCmp(key, query);
        r := c == 0;
      } else {
        r := CubeContains(key, query);
      }
    case ContainsQuery =>
      r := CubeContains(key, query);
    case ContainedBy =>
      if isLeaf {
        r := CubeContains(query, key);
      } else {
        r := CubeOverlap(key, query);
      }
  }

  /** The query's axes beyond the leaf's include zero. */
  predicate ExtraIncludeZero(query: Cube, leaf: Cube) {
    forall i :: leaf.dim <= i < query.dim ==> query.Lo(i) <= 0.0 <= query.Hi(i)
  }

  lemma OverlapGrows(node: Cube, leaf: Cube, query: Cube)
    requires Encloses(node, leaf) && Overlap(leaf, query)
    ensures Overlap(node, query)
  {
    forall i | 0 <= i < MaxDim(node, query) ensures node.Lo(i) <= query.Hi(i) && query.Lo(i) <= node.Hi(i) {
      EnclosesAt(node, leaf, i);
      if i < MaxDim(leaf, query) {
        assert leaf.Lo(i) <= query.Hi(i) && query.Lo(i) <= leaf.Hi(i);
      }
    }
  }

  lemma ContainsGrows(node: Cube, leaf: Cube, query: Cube)
    requires Encloses(node, leaf) && Contains(leaf, query)
    ensures Contains(node, query)
  {
    forall i | 0 <= i < query.dim ensures node.Lo(i) <= query.Lo(i) && query.Hi(i) <= node.Hi(i) {
      EnclosesAt(node, leaf, i);
    }
  }

  /** A query that contains the leaf overlaps it, unless it leaves out zero on an axis the
      leaf does not have. */
  lemma ContainedOverlapsIff(query: Cube, leaf: Cube)
    requires Contains(query, leaf)
    ensures Overlap(leaf, query) <==> ExtraIncludeZero(query, leaf)
  {
    forall i | 0 <= i < leaf.dim ensures leaf.Lo(i) <= query.Hi(i) && query.Lo(i) <= leaf.Hi(i) {
      assert query.Lo(i) <= leaf.Lo(i) && leaf.Hi(i) <= query.Hi(i);
      Extents(leaf, i);
    }
    if Overlap(leaf, query) {
      forall i | leaf.dim <= i < query.dim ensures query.Lo(i) <= 0.0 <= query.Hi(i) {
        assert i < MaxDim(leaf, query);
      }
    }
  }

  /** A matching leaf is visible at every box that encloses it. */
  lemma NeverPruned(node: Cube, leaf: Cube, query: Cube, s: Strategy)
    requires Encloses(node, leaf) && LeafConsistent(leaf, query, s)
    requires s.ContainedBy? ==> ExtraIncludeZero(query, leaf)
    ensures InnerConsistent(node, query, s)
  {
    match s
    case Overlaps => OverlapGrows(node, leaf, query);
    case Same =>
      CmpZeroIff(leaf, query);
      ContainsGrows(node, leaf, query);
    case ContainsQuery => ContainsGrows(node, leaf, query);
    case ContainedBy =>
      ContainedOverlapsIff(query, leaf);
      OverlapGrows(node, leaf, query);
  }

  /** For contained-by the condition is exact: without it the leaf's own box, as the key of a
      page that holds just this leaf, is rejected. */
  lemma ContainedByIff(leaf: Cube, query: Cube)
    requires LeafConsistent(leaf, query, ContainedBy)
    ensures (forall node: Cube :: Encloses(node, leaf) ==> InnerConsistent(node, query, ContainedBy)) <==>
            ExtraIncludeZero(query, leaf)
  {
    if ExtraIncludeZero(query, leaf) {
      forall node: Cube | Encloses(node, leaf) ensures InnerConsistent(node, query, ContainedBy) {
        NeverPruned(node, leaf, query, ContainedBy);
      }
    } else {
      ContainedOverlapsIff(query, leaf);
      assert Encloses(leaf, leaf);
      assert !InnerConsistent(leaf, query, ContainedBy);
    }
  }
}
