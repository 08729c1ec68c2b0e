/** Boxes of contrib/cube: n-dimensional, of differing dimension, with corners in either
    order (contrib/cube/cubedata.h, contrib/cube/cube.c). Coordinates are reals. */
module CubeBox {

  function Min(a: real, b: real): real { if a < b then a else b }

  function Max(a: real, b: real): real { if a > b then a else b }

  function Abs(a: real): real { if a < 0.0 then -a else a }

  /** NDBOX: `dim` lower-left coordinates, then `dim` upper-right ones unless the point flag
      is set. */
  datatype Box = Box(dim: nat, point: bool, x: seq<real>) {
    predicate Valid() { |x| == if point then dim else 2 * dim }

    function LL(i: nat): real
      requires Valid() && i < dim
    {
      x[i]
    }

    function UR(i: nat): real
      requires Valid() && i < dim
    {
      if point then x[i] else x[i + dim]
    }

    /** The extent on axis i; a missing axis is the point zero. */
    function Lo(i: nat): real
      requires Valid()
    {
      if i < dim then Min(LL(i), UR(i)) else 0.0
    }

    function Hi(i: nat): real
      requires Valid()
    {
      if i < dim then Max(LL(i), UR(i)) else 0.0
    }
  }

  /** NDBOX values; the witness is the zero-dimensional box. */
  type Cube = b: Box | b.Valid() witness Box(0, true, [])

  function MaxDim(a: Cube, b: Cube): nat { if a.dim < b.dim then b.dim else a.dim }

  predicate IsPoint(b: Cube) {
    forall i :: 0 <= i < b.dim ==> b.LL(i) == b.UR(i)
  }

  /** The cube with the given corners, flagged as a point when they coincide. */
  function FromCorners(dim: nat, corners: seq<real>): (r: Cube)
    requires |corners| == 2 * dim
  {
    if IsPoint(Box(dim, false, corners)) then Box(dim, true, corners[..dim]) else Box(dim, false, corners)
  }

  lemma FromCornersExtent(dim: nat, corners: seq<real>, i: nat)
    requires |corners| == 2 * dim && i < dim
    ensures var r := FromCorners(dim, corners);
            r.dim == dim && r.Lo(i) == Min(corners[i], corners[i + dim]) && r.Hi(i) == Max(corners[i], corners[i + dim])
  {
    assert IsPoint(Box(dim, false, corners)) ==> Box(dim, false, corners).LL(i) == Box(dim, false, corners).UR(i);
  }

  // ----- Containment and overlap as statements about extents

  /** a contains b: on b's axes. Axes that only a has do not matter. */
  predicate Contains(a: Cube, b: Cube) {
    forall i :: 0 <= i < b.dim ==> a.Lo(i) <= b.Lo(i) && b.Hi(i) <= a.Hi(i)
  }

  predicate Overlap(a: Cube, b: Cube) {
    forall i :: 0 <= i < MaxDim(a, b) ==> a.Lo(i) <= b.Hi(i) && b.Lo(i) <= a.Hi(i)
  }

  /** a bounds b on every axis. */
  predicate Encloses(a: Cube, b: Cube) {
    b.dim <= a.dim && forall i :: 0 <= i < a.dim ==> a.Lo(i) <= b.Lo(i) && b.Hi(i) <= a.Hi(i)
  }

  lemma Extents(b: Cube, i: nat)
    ensures b.Lo(i) <= b.Hi(i)
  {
  }

  lemma EnclosesAt(a: Cube, b: Cube, i: nat)
    requires Encloses(a, b)
    ensures a.Lo(i) <= b.Lo(i) && b.Hi(i) <= a.Hi(i)
  {
  }

  lemma EnclosesTransitive(a: Cube, b: Cube, c: Cube)
    requires Encloses(a, b) && Encloses(b, c)
    ensures Encloses(a, c)
  {
    forall i | 0 <= i < a.dim ensures a.Lo(i) <= c.Lo(i) && c.Hi(i) <= a.Hi(i) {
      EnclosesAt(a, b, i);
      EnclosesAt(b, c, i);
    }
  }

  // ----- Union and intersection

  function UnionCorners(a: Cube, b: Cube): seq<real> {
    var dim := MaxDim(a, b);
    seq(2 * dim, i requires 0 <= i < 2 * dim =>
      if i < dim then Min(a.Lo(i), b.Lo(i)) else Max(a.Hi(i - dim), b.Hi(i - dim)))
  }

  function Union(a: Cube, b: Cube): (r: Cube) {
    FromCorners(MaxDim(a, b), UnionCorners(a, b))
  }

  lemma UnionCornersAt(a: Cube, b: Cube, i: nat)
    requires i < MaxDim(a, b)
    ensures var dim, c := MaxDim(a, b), UnionCorners(a, b);
            && c[i] == Min(a.Lo(i), b.Lo(i)) == Min(b.Lo(i), a.Lo(i))
            && c[i + dim] == Max(a.Hi(i), b.Hi(i)) == Max(b.Hi(i), a.Hi(i))
  {
  }

  function InterCorners(a: Cube, b: Cube): seq<real> {
    var dim := MaxDim(a, b);
    seq(2 * dim, i requires 0 <= i < 2 * dim =>
      if i < dim then Max(a.Lo(i), b.Lo(i)) else Min(a.Hi(i - dim), b.Hi(i - dim)))
  }

  lemma InterCornersAt(a: Cube, b: Cube, i: nat)
    requires i < MaxDim(a, b)
    ensures var dim, c := MaxDim(a, b), InterCorners(a, b);
            && c[i] == Max(a.Lo(i), b.Lo(i)) == Max(b.Lo(i), a.Lo(i))
            && c[i + dim] == Min(a.Hi(i), b.Hi(i)) == Min(b.Hi(i), a.Hi(i))
  {
  }

  function Inter(a: Cube, b: Cube): (r: Cube) {
    FromCorners(MaxDim(a, b), InterCorners(a, b))
  }

  /** The union is the least box that encloses both arguments. */
  lemma UnionIsJoin(a: Cube, b: Cube, c: Cube)
    ensures Encloses(Union(a, b), a) && Encloses(Union(a, b), b)
    ensures Encloses(c, Union(a, b)) <==> Encloses(c, a) && Encloses(c, b)
  {
    var u := Union(a, b);
    UnionEncloses(a, b);
    if Encloses(c, u) {
      EnclosesTransitive(c, u, a);
      EnclosesTransitive(c, u, b);
    }
    if Encloses(c, a) && Encloses(c, b) {
      UnionIsLeast(a, b, c);
    }
  }

  lemma UnionEncloses(a: Cube, b: Cube)
    ensures Encloses(Union(a, b), a) && Encloses(Union(a, b), b)
  {
    var u := Union(a, b);
    forall i | 0 <= i < u.dim
      ensures u.Lo(i) <= a.Lo(i) && a.Hi(i) <= u.Hi(i) && u.Lo(i) <= b.Lo(i) && b.Hi(i) <= u.Hi(i)
    {
      UnionExtent(a, b, i);
    }
  }

  lemma UnionIsLeast(a: Cube, b: Cube, c: Cube)
    requires Encloses(c, a) && Encloses(c, b)
    ensures Encloses(c, Union(a, b))
  {
    var u := Union(a, b);
    forall i | 0 <= i < c.dim ensures c.Lo(i) <= u.Lo(i) && u.Hi(i) <= c.Hi(i) {
      UnionExtent(a, b, i);
      EnclosesAt(c, a, i);
      EnclosesAt(c, b, i);
    }
  }

  lemma UnionExtent(a: Cube, b: Cube, i: nat)
    ensures Union(a, b).Lo(i) == Min(a.Lo(i), b.Lo(i)) && Union(a, b).Hi(i) == Max(a.Hi(i), b.Hi(i))
  {
    if i < MaxDim(a, b) {
      Extents(a, i);
      Extents(b, i);
      UnionCornersAt(a, b, i);
      FromCornersExtent(MaxDim(a, b), UnionCorners(a, b), i);
    }
  }

  /** The intersection of overlapping boxes is the greatest lower bound on each axis; of
      disjoint ones it is the gap between them, as a box with swapped corners. */
  lemma InterExtent(a: Cube, b: Cube, i: nat)
    ensures var lo, hi := Max(a.Lo(i), b.Lo(i)), Min(a.Hi(i), b.Hi(i));
            Inter(a, b).Lo(i) == Min(lo, hi) && Inter(a, b).Hi(i) == Max(lo, hi)
  {
    if i < MaxDim(a, b) {
      InterCornersAt(a, b, i);
      FromCornersExtent(MaxDim(a, b), InterCorners(a, b), i);
    }
  }

  // ----- The loops of cube.c

  /** The coordinates of the first i axes are in place. */
  ghost predicate Filled(x: seq<real>, corners: seq<real>, dim: nat, i: nat)
    requires |x| == |corners| == 2 * dim
  {
    forall k :: 0 <= k < 2 * dim && (k < i || dim <= k < dim + i) ==> x[k] == corners[k]
  }

  lemma FilledStep(x: seq<real>, corners: seq<real>, dim: nat, i: nat)
    requires |x| == |corners| == 2 * dim && i < dim && Filled(x, corners, dim, i)
    ensures Filled(x[i := corners[i]][i + dim := corners[i + dim]], corners, dim, i + 1)
  {
  }

  /** cube_is_point_internal */
  method CubeIsPoint(c: Cube) returns (r: bool)
    ensures r == IsPoint(c)
  {
    if c.point {
      return true;
    }
    for i := 0 to c.dim
      invariant forall k :: 0 <= k < i ==> c.LL(k) == c.UR(k)
    {
      if c.LL(i) != c.UR(i) {
        return false;
      }
    }
    return true;
  }

  /** The end of cube_union_v0 and cube_inter: a box that is a point is stored as one. */
  method Finish(dim: nat, corners: array<real>) returns (r: Cube)
    requires corners.Length == 2 * dim
    ensures r == FromCorners(dim, corners[..])
  {
    r := Box(dim, false, corners[..]);
    var isPoint := CubeIsPoint(r);
    if isPoint {
      r := Box(dim, true, corners[..dim]);
      assert corners[..][..dim] == corners[..dim];
    }
  }

  lemma UnionCommutes(a: Cube, b: Cube)
    ensures UnionCorners(a, b) == UnionCorners(b, a)
  {
    var dim := MaxDim(a, b);
    forall i | 0 <= i < 2 * dim ensures UnionCorners(a, b)[i] == UnionCorners(b, a)[i] {
      UnionCornersAt(a, b, if i < dim then i else i - dim);
    }
  }

  /** The loops of cube_union_v0, once the argument with more axes comes first. */
  method FillUnion(a: Cube, b: Cube) returns (x: array<real>)
    requires a.dim >= b.dim
    ensures x[..] == UnionCorners(a, b)
  {
    var dim := a.dim;
    ghost var corners := UnionCorners(a, b);
    x := new real[2 * dim];
    var i := 0;
    while i < b.dim
      invariant 0 <= i <= b.dim
      invariant Filled(x[..], corners, dim, i)
    {
      UnionCornersAt(a, b, i);
      FilledStep(x[..], corners, dim, i);
      x[i] := Min(Min(a.LL(i), a.UR(i)), Min(b.LL(i), b.UR(i)));
      x[i + dim] := Max(Max(a.LL(i), a.UR(i)), Max(b.LL(i), b.UR(i)));
      i := i + 1;
    }
    while i < dim
      invariant b.dim <= i <= dim
      invariant Filled(x[..], corners, dim, i)
    {
      UnionCornersAt(a, b, i);
      FilledStep(x[..], corners, dim, i);
      x[i] := Min(0.0, Min(a.LL(i), a.UR(i)));
      x[i + dim] := Max(0.0, Max(a.LL(i), a.UR(i)));
      i := i + 1;
    }
    assert x[..] == corners;
  }

  /** cube_union_v0; `same` says that the two arguments are one object. */
  method CubeUnion(a0: Cube, b0: Cube, same: bool) returns (r: Cube)
    requires same ==> a0 == b0
    ensures r == if same then a0 else Union(a0, b0)
  {
    if same {
      return a0;
    }
    var a, b := a0, b0;
    if a.dim < b.dim {
      UnionCommutes(a0, b0);
      a, b := b, a;
    }
    var x := FillUnion(a, b);
    r := Finish(a.dim, x);
  }

  lemma InterCommutes(a: Cube, b: Cube)
    ensures InterCorners(a, b) == InterCorners(b, a)
  {
    var dim := MaxDim(a, b);
    forall i | 0 <= i < 2 * dim ensures InterCorners(a, b)[i] == InterCorners(b, a)[i] {
      InterCornersAt(a, b, if i < dim then i else i - dim);
    }
  }

  /** The loops of cube_inter, once the argument with more axes comes first. */
  method FillInter(a: Cube, b: Cube) returns (x: array<real>)
    requires a.dim >= b.dim
    ensures x[..] == InterCorners(a, b)
  {
    var dim := a.dim;
    ghost var corners := InterCorners(a, b);
    x := new real[2 * dim];
    var i := 0;
    while i < b.dim
      invariant 0 <= i <= b.dim
      invariant Filled(x[..], corners, dim, i)
    {
      InterCornersAt(a, b, i);
      FilledStep(x[..], corners, dim, i);
      x[i] := Max(Min(a.LL(i), a.UR(i)), Min(b.LL(i), b.UR(i)));
      x[i + dim] := Min(Max(a.LL(i), a.UR(i)), Max(b.LL(i), b.UR(i)));
      i := i + 1;
    }
    while i < dim
      invariant b.dim <= i <= dim
      invariant Filled(x[..], corners, dim, i)
    {
      InterCornersAt(a, b, i);
      FilledStep(x[..], corners, dim, i);
      x[i] := Max(0.0, Min(a.LL(i), a.UR(i)));
      x[i + dim] := Min(0.0, Max(a.LL(i), a.UR(i)));
      i := i + 1;
    }
    assert x[..] == corners;
  }

  /** cube_inter */
  method CubeInter(a0: Cube, b0: Cube) returns (r: Cube)
    ensures r == Inter(a0, b0)
  {
    var a, b := a0, b0;
    if a.dim < b.dim {
      InterCommutes(a0, b0);
      a, b := b, a;
    }
    var x := FillInter(a, b);
    r := Finish(a.dim, x);
  }

  /** cube_contains_v0 */
  method CubeContains(a: Cube, b: Cube) returns (r: bool)
    ensures r == Contains(a, b)
  {
    if a.dim < b.dim {
      for i := a.dim to b.dim
        invariant forall k :: a.dim <= k < i ==> b.LL(k) == b.UR(k) == 0.0
      {
        if b.LL(i) != 0.0 || b.UR(i) != 0.0 {
          assert !(a.Lo(i) <= b.Lo(i) && b.Hi(i) <= a.Hi(i));
          return false;
        }
      }
    }
    for i := 0 to if a.dim < b.dim then a.dim else b.dim
      invariant forall k :: 0 <= k < i ==> a.Lo(k) <= b.Lo(k) && b.Hi(k) <= a.Hi(k)
    {
      if Min(a.LL(i), a.UR(i)) > Min(b.LL(i), b.UR(i)) {
        assert a.Lo(i) > b.Lo(i);
        return false;
      }
      if Max(a.LL(i), a.UR(i)) < Max(b.LL(i), b.UR(i)) {
        assert a.Hi(i) < b.Hi(i);
        return false;
      }
    }
    return true;
  }

  /** cube_overlap_v0 */
  method CubeOverlap(a0: Cube, b0: Cube) returns (r: bool)
    ensures r == Overlap(a0, b0)
  {
    var a, b := a0, b0;
    if a.dim < b.dim {
      a, b := b, a;
    }
    for i := 0 to b.dim
      invariant forall k :: 0 <= k < i ==> a.Lo(k) <= b.Hi(k) && b.Lo(k) <= a.Hi(k)
    {
      if Min(a.LL(i), a.UR(i)) > Max(b.LL(i), b.UR(i)) {
        assert a.Lo(i) > b.Hi(i);
        return false;
      }
      if Max(a.LL(i), a.UR(i)) < Min(b.LL(i), b.UR(i)) {
        assert a.Hi(i) < b.Lo(i);
        return false;
      }
    }
    for i := b.dim to a.dim
      invariant forall k :: 0 <= k < i ==> a.Lo(k) <= b.Hi(k) && b.Lo(k) <= a.Hi(k)
    {
      if Min(a.LL(i), a.UR(i)) > 0.0 {
        assert a.Lo(i) > b.Hi(i);
        return false;
      }
      if Max(a.LL(i), a.UR(i)) < 0.0 {
        assert a.Hi(i) < b.Lo(i);
        return false;
      }
    }
    return true;
  }
}
