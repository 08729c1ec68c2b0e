/** Nearest-neighbour ordering of contrib/cube (contrib/cube/cube.c): the value computed at
    an inner entry is a lower bound for every leaf below it. */
module CubeDistance {
  import opened CubeBox
  import opened CubeIndex
  import opened GistIndex

  /** distance_1D, on corners in either order. */
  function Distance1D(a1: real, a2: real, b1: real, b2: real): real {
    if a1 <= b1 && a2 <= b1 && a1 <= b2 && a2 <= b2 then Min(b1, b2) - Max(a1, a2)
    else if a1 > b1 && a2 > b1 && a1 > b2 && a2 > b2 then Min(a1, a2) - Max(b1, b2)
    else 0.0
  }

  /** The gap between the extents of two cubes on axis i. */
  function Gap(a: Cube, b: Cube, i: nat): real {
    Max(0.0, Max(b.Lo(i) - a.Hi(i), a.Lo(i) - b.Hi(i)))
  }

  lemma Distance1DIsGap(a1: real, a2: real, b1: real, b2: real)
    ensures Distance1D(a1, a2, b1, b2) == Max(0.0, Max(Min(b1, b2) - Max(a1, a2), Min(a1, a2) - Max(b1, b2)))
  {
  }

  datatype Metric = Taxicab | Euclid | Chebyshev

  /** One more axis; Euclidean distances are compared before the square root. */
  function Accumulate(m: Metric, distance: real, d: real): real {
    match m
    case Taxicab => distance + d
    case Euclid => distance + d * d
    case Chebyshev => if d > distance then d else distance
  }

  /** The distance over the first n axes. */
  function DistanceTo(m: Metric, a: Cube, b: Cube, n: nat): real {
    if n == 0 then 0.0 else Accumulate(m, DistanceTo(m, a, b, n - 1), Gap(a, b, n - 1))
  }

  function Distance(m: Metric, a: Cube, b: Cube): real {
    DistanceTo(m, a, b, MaxDim(a, b))
  }

  // ----- The lower bound

  lemma SquareMonotone(d: real, e: real)
    requires 0.0 <= d <= e
    ensures d * d <= e * e
  {
    assert d * d <= d * e <= e * e;
  }

  lemma GapShrinks(node: Cube, leaf: Cube, query: Cube, i: nat)
    requires Encloses(node, leaf)
    ensures 0.0 <= Gap(node, query, i) <= Gap(leaf, query, i)
  {
    EnclosesAt(node, leaf, i);
  }

  lemma AccumulateMonotone(m: Metric, x: real, y: real, d: real, e: real)
    requires 0.0 <= x <= y && 0.0 <= d <= e
    ensures 0.0 <= Accumulate(m, x, d) <= Accumulate(m, y, e)
  {
    SquareMonotone(d, e);
    SquareMonotone(0.0, d);
  }

  lemma {:induction false} DistanceShrinks(m: Metric, node: Cube, leaf: Cube, query: Cube, n: nat)
    requires Encloses(node, leaf)
    ensures 0.0 <= DistanceTo(m, node, query, n) <= DistanceTo(m, leaf, query, n)
  {
    if n != 0 {
      DistanceShrinks(m, node, leaf, query, n - 1);
      GapShrinks(node, leaf, query, n - 1);
      AccumulateMonotone(m, DistanceTo(m, node, query, n - 1), DistanceTo(m, leaf, query, n - 1),
                         Gap(node, query, n - 1), Gap(leaf, query, n - 1));
    }
  }

  lemma AddsNothing(m: Metric, x: real)
    requires 0.0 <= x
    ensures Accumulate(m, x, 0.0) == x
  {
  }

  /** Axes that neither cube has add nothing. */
  lemma {:induction false} DistanceSettles(m: Metric, a: Cube, b: Cube, n: nat)
    requires MaxDim(a, b) <= n
    ensures DistanceTo(m, a, b, n) == Distance(m, a, b)
  {
    if n != MaxDim(a, b) {
      DistanceSettles(m, a, b, n - 1);
      DistanceShrinks(m, a, a, b, n - 1);
      assert Gap(a, b, n - 1) == 0.0;
      AddsNothing(m, DistanceTo(m, a, b, n - 1));
    }
  }

  /** Bound for the three distances: mixed dimensions, corners in any order. */
  lemma DistanceBound(m: Metric, node: Cube, leaf: Cube, query: Cube)
    requires Encloses(node, leaf)
    ensures Distance(m, node, query) <= Distance(m, leaf, query)
  {
    var n := MaxDim(node, query);
    DistanceShrinks(m, node, leaf, query, n);
    DistanceSettles(m, leaf, query, n);
  }

  /** d is the distance itself: for the Euclidean metric, the square root. */
  predicate IsDistance(m: Metric, a: Cube, b: Cube, d: real) {
    0.0 <= d && if m.Euclid? then d * d == Distance(m, a, b) else d == Distance(m, a, b)
  }

  /** The bound survives the square root. */
  lemma RootBound(m: Metric, node: Cube, leaf: Cube, query: Cube, d: real, e: real)
    requires Encloses(node, leaf) && IsDistance(m, node, query, d) && IsDistance(m, leaf, query, e)
    ensures d <= e
  {
    DistanceBound(m, node, leaf, query);
    if d > e {
      SquareStrict(e, d);
    }
  }

  lemma SquareStrict(e: real, d: real)
    requires 0.0 <= e < d
    ensures e * e < d * d
  {
    assert d * d - e * e == (d - e) * (d + e);
    ProductPositive(d - e, d + e);
  }

  lemma ProductPositive(x: real, y: real)
    requires x > 0.0 && y > 0.0
    ensures x * y > 0.0
  {
    var p := x * y;
    assert p / y == x;
  }

  lemma {:induction false} DistanceSymmetricTo(m: Metric, a: Cube, b: Cube, n: nat)
    ensures DistanceTo(m, a, b, n) == DistanceTo(m, b, a, n)
  {
    if n != 0 {
      DistanceSymmetricTo(m, a, b, n - 1);
    }
  }

  lemma SquareZeroIff(d: real, square: real)
    requires 0.0 <= d && square == d * d
    ensures 0.0 <= square
    ensures square == 0.0 <==> d == 0.0
  {
    if d > 0.0 {
      assert square / d == d;
      assert 0.0 / d == 0.0;
    }
  }

  lemma AccumulateZeroIff(m: Metric, x: real, d: real)
    requires 0.0 <= x && 0.0 <= d
    ensures Accumulate(m, x, d) == 0.0 <==> x == 0.0 && d == 0.0
  {
    SquareZeroIff(d, d * d);
  }

  lemma GapZeroIff(a: Cube, b: Cube, i: nat)
    ensures 0.0 <= Gap(a, b, i)
    ensures Gap(a, b, i) == 0.0 <==> a.Lo(i) <= b.Hi(i) && b.Lo(i) <= a.Hi(i)
  {
  }

  /** Distance zero means overlap, for all three metrics. */
  lemma {:induction false} DistanceZeroTo(m: Metric, a: Cube, b: Cube, n: nat)
    ensures 0.0 <= DistanceTo(m, a, b, n)
    ensures DistanceTo(m, a, b, n) == 0.0 <==>
            forall i :: 0 <= i < n ==> a.Lo(i) <= b.Hi(i) && b.Lo(i) <= a.Hi(i)
  {
    if n != 0 {
      DistanceZeroTo(m, a, b, n - 1);
      GapZeroIff(a, b, n - 1);
      AccumulateMonotone(m, 0.0, DistanceTo(m, a, b, n - 1), 0.0, Gap(a, b, n - 1));
      AccumulateZeroIff(m, DistanceTo(m, a, b, n - 1), Gap(a, b, n - 1));
    }
  }

  lemma DistanceZeroIff(m: Metric, a: Cube, b: Cube)
    ensures Distance(m, a, b) == 0.0 <==> Overlap(a, b)
  {
    DistanceZeroTo(m, a, b, MaxDim(a, b));
  }

  // ----- Ordering by a coordinate

  /** The ~> operator's value of a leaf, by coordinates numbered from 1: odd ones ask for the
      lower extent of an axis, even ones for the upper, negative ones for the negated value. An
      inner entry answers with the least value that a cube within it can have. */
  function CoordValue(cube: Cube, coord: int, isLeaf: bool): real
    requires coord != 0
  {
    var c := if coord < 0 then -coord else coord;
    var upper := if isLeaf then (c - 1) % 2 == 1 else coord < 0;
    var extent := if upper then cube.Hi((c - 1) / 2) else cube.Lo((c - 1) / 2);
    if coord < 0 then -extent else extent
  }

  lemma CoordBound(node: Cube, leaf: Cube, coord: int)
    requires Encloses(node, leaf) && coord != 0
    ensures CoordValue(node, coord, false) <= CoordValue(leaf, coord, true)
  {
    var index: nat := ((if coord < 0 then -coord else coord) - 1) / 2;
    EnclosesAt(node, leaf, index);
    Extents(leaf, index);
  }

  // ----- Over whole indexes

  const LEAST_INT32 := -0x8000_0000

  type Int32 = c: int | LEAST_INT32 <= c < 0x8000_0000

  datatype Ordering = ByCoord(coord: Int32) | ByMetric(m: Metric, query: Cube)

  /** The ordering value; the error for coordinate zero; or, for the least coordinate, whose
      negation is no int32, no defined result. */
  datatype Key = ZeroIndex | Undefined | Key(value: real)

  /** k is the answer for this cube. */
  predicate IsKey(cube: Cube, o: Ordering, isLeaf: bool, k: Key) {
    match o
    case ByCoord(coord) =>
      k == if coord == 0 then ZeroIndex
           else if coord == LEAST_INT32 then Undefined
           else Key(CoordValue(cube, coord, isLeaf))
    case ByMetric(m, query) => k.Key? && IsDistance(m, cube, query, k.value)
  }

  lemma EntryBound(node: Cube, leaf: Cube, o: Ordering, nodeKey: Key, leafKey: Key)
    requires Encloses(node, leaf) && IsKey(node, o, false, nodeKey) && IsKey(leaf, o, true, leafKey)
    ensures nodeKey.ZeroIndex? <==> leafKey.ZeroIndex?
    ensures nodeKey.Undefined? <==> leafKey.Undefined?
    ensures nodeKey.Key? ==> nodeKey.value <= leafKey.value
  {
    match o
    case ByCoord(coord) =>
      if coord != 0 {
        CoordBound(node, leaf, coord);
      }
    case ByMetric(m, query) => RootBound(m, node, leaf, query, nodeKey.value, leafKey.value);
  }

  /** A best-first search may stop at a queue of inner entries none of which beats the leaf in
      hand: at every moment of every life of an index, on every page, the value of a downlink
      is at most that of any cube below it. */
  lemma IndexBound(pages: seq<seq<Entry>>, edits: seq<Edit<Cube, Cube>>, n: nat, path: seq<nat>, i: nat, leaf: Cube,
                   o: Ordering, nodeKey: Key, leafKey: Key)
    requires Life(CubeClass(), pages, edits) && n <= |edits| && ValidPath(pages[n], path)
    requires i < |PageAt(pages[n], path)| && PageAt(pages[n], path)[i].Down?
    requires leaf in Leaves(PageAt(pages[n], path)[i])
    requires IsKey(PageAt(pages[n], path)[i].key, o, false, nodeKey) && IsKey(leaf, o, true, leafKey)
    ensures nodeKey.ZeroIndex? <==> leafKey.ZeroIndex?
    ensures nodeKey.Undefined? <==> leafKey.Undefined?
    ensures nodeKey.Key? ==> nodeKey.value <= leafKey.value
  {
    var t := PageAt(pages[n], path)[i];
    BoxesEnclose(pages, edits, n);
    SoundBelow(CubeClass(), pages[n], path);
    EntryBagIsLeaves(t);
    EntryEncloses(t, leaf);
    EntryBound(t.key, leaf, o, nodeKey, leafKey);
  }

  // ----- The loops of cube_distance, distance_taxicab and distance_chebyshev

  lemma GapOfCorners(a: Cube, b: Cube, i: nat)
    requires b.dim <= a.dim && i < a.dim
    ensures i < b.dim ==> Distance1D(a.LL(i), a.UR(i), b.LL(i), b.UR(i)) == Gap(a, b, i)
    ensures i >= b.dim ==> Distance1D(a.LL(i), a.UR(i), 0.0, 0.0) == Gap(a, b, i)
    ensures Abs(Gap(a, b, i)) == Gap(a, b, i)
  {
    if i < b.dim {
      Distance1DIsGap(a.LL(i), a.UR(i), b.LL(i), b.UR(i));
    } else {
      Distance1DIsGap(a.LL(i), a.UR(i), 0.0, 0.0);
    }
  }

  /** sqrt answers with the square root here. */
  predicate RootAt(sqrt: real -> real, x: real) {
    0.0 <= sqrt(x) && sqrt(x) * sqrt(x) == x
  }

  /** cube_distance, distance_taxicab and distance_chebyshev, given the library's sqrt. */
  method CubeDistance(m: Metric, a0: Cube, b0: Cube, sqrt: real -> real) returns (distance: real)
    requires m.Euclid? ==> RootAt(sqrt, Distance(m, a0, b0))
    ensures IsDistance(m, a0, b0, distance)
  {
    var a, b := a0, b0;
    if a.dim < b.dim {
      a, b := b, a;
      DistanceSymmetricTo(m, a, b, a.dim);
    }
    distance := DistanceLoops(m, a, b);
    assert distance == Distance(m, a0, b0);
    DistanceZeroTo(m, a0, b0, MaxDim(a0, b0));
    if m.Euclid? {
      distance := sqrt(distance);
    }
  }

  method DistanceLoops(m: Metric, a: Cube, b: Cube) returns (distance: real)
    requires a.dim >= b.dim
    ensures distance == DistanceTo(m, a, b, a.dim)
  {
    distance := 0.0;
    for i := 0 to b.dim
      invariant distance == DistanceTo(m, a, b, i)
    {
      GapOfCorners(a, b, i);
      var d := Distance1D(a.LL(i), a.UR(i), b.LL(i), b.UR(i));
      distance := Accumulate(m, distance, Abs(d));
    }
    for i := b.dim to a.dim
      invariant distance == DistanceTo(m, a, b, i)
    {
      GapOfCorners(a, b, i);
      var d := Distance1D(a.LL(i), a.UR(i), 0.0, 0.0);
      distance := Accumulate(m, distance, Abs(d));
    }
  }

  /** g_cube_distance for the ~> operator. */
  method CoordDistance(cube: Cube, coordinate: Int32, isLeaf: bool) returns (retval: real)
    requires coordinate != 0 && coordinate != LEAST_INT32
    ensures retval == CoordValue(cube, coordinate, isLeaf)
  {
    var coord: Int32, inverse := coordinate, false;
    if coord < 0 {
      coord, inverse := -coord, true;
    }
    if coord <= 2 * cube.dim {
      var index: nat := (coord - 1) / 2;
      var upper := (coord - 1) % 2 == 1;
      if cube.point {
        retval := cube.x[index];
      } else if isLeaf {
        if upper {
          retval := Max(cube.x[index], cube.x[index + cube.dim]);
        } else {
          retval := Min(cube.x[index], cube.x[index + cube.dim]);
        }
      } else if !inverse {
        retval := Min(cube.x[index], cube.x[index + cube.dim]);
      } else {
        retval := Max(cube.x[index], cube.x[index + cube.dim]);
      }
    } else {
      retval := 0.0;
    }
    if inverse {
      retval := -retval;
    }
  }

  /** g_cube_distance. The C code negates the least coordinate too; what comes of that is not
      defined. */
  method GCubeDistance(cube: Cube, o: Ordering, isLeaf: bool, sqrt: real -> real) returns (r: Key)
    requires o.ByMetric? && o.m.Euclid? ==> RootAt(sqrt, Distance(o.m, cube, o.query))
    ensures IsKey(cube, o, isLeaf, r)
  {
    match o
    case ByCoord(coord) =>
      if coord == 0 {
        return ZeroIndex;
      }
      if coord == LEAST_INT32 {
        return Undefined;
      }
      var retval := CoordDistance(cube, coord, isLeaf);
      return Key(retval);
    case ByMetric(m, query) =>
      var d := CubeDistance(m, cube, query, sqrt);
      return Key(d);
  }
}
