/** The order of cubes, cube_cmp_v0 (contrib/cube/cube.c). */
module CubeOrder {
  import opened CubeBox

  function Sign(a: real, b: real): int { if a > b then 1 else if a < b then -1 else 0 }

  /** The first difference of two equally long coordinate lists. */
  function Lex(s: seq<real>, t: seq<real>): int
    requires |s| == |t|
  {
    if s == [] then 0 else First(Sign(s[0], t[0]), Lex(s[1..], t[1..]))
  }

  function First(x: int, y: int): int { if x != 0 then x else y }

  /** Lower (upper) extents of the axes from i up to j. */
  function Los(b: Cube, i: nat, j: nat): (s: seq<real>)
    requires i <= j
  {
    seq(j - i, k requires 0 <= k < j - i => b.Lo(i + k))
  }

  function His(b: Cube, i: nat, j: nat): (s: seq<real>)
    requires i <= j
  {
    seq(j - i, k requires 0 <= k < j - i => b.Hi(i + k))
  }

  function MinDim(a: Cube, b: Cube): nat { if a.dim < b.dim then a.dim else b.dim }

  /** Shared axes first, lower then upper extents; then the other axes against zero; then
      the number of axes. */
  function Cmp(a: Cube, b: Cube): int {
    var m, n := MinDim(a, b), MaxDim(a, b);
    First(Lex(Los(a, 0, m), Los(b, 0, m)),
    First(Lex(His(a, 0, m), His(b, 0, m)),
    First(Lex(Los(a, m, n), Los(b, m, n)),
    First(Lex(His(a, m, n), His(b, m, n)),
          if a.dim > b.dim then 1 else if a.dim < b.dim then -1 else 0))))
  }

  // ----- A strict order on lists of equal length

  lemma {:induction false} LexZeroIff(s: seq<real>, t: seq<real>)
    requires |s| == |t|
    ensures -1 <= Lex(s, t) <= 1
    ensures Lex(s, t) == 0 <==> s == t
  {
    if s != [] {
      LexZeroIff(s[1..], t[1..]);
      assert s == [s[0]] + s[1..] && t == [t[0]] + t[1..];
    }
  }

  lemma {:induction false} LexAntisymmetric(s: seq<real>, t: seq<real>)
    requires |s| == |t|
    ensures Lex(s, t) == -Lex(t, s)
  {
    if s != [] {
      LexAntisymmetric(s[1..], t[1..]);
    }
  }

  lemma {:induction false} LexTransitive(s: seq<real>, t: seq<real>, u: seq<real>)
    requires |s| == |t| == |u| && Lex(s, t) <= 0 && Lex(t, u) <= 0
    ensures Lex(s, u) <= 0
  {
    if s != [] && s[0] == t[0] == u[0] {
      LexTransitive(s[1..], t[1..], u[1..]);
    }
  }

  // ----- The order on cubes

  lemma LosEqualIff(a: Cube, b: Cube, i: nat, j: nat)
    requires i <= j
    ensures Los(a, i, j) == Los(b, i, j) <==> forall k :: i <= k < j ==> a.Lo(k) == b.Lo(k)
  {
    if Los(a, i, j) == Los(b, i, j) {
      forall k | i <= k < j ensures a.Lo(k) == b.Lo(k) {
        assert Los(a, i, j)[k - i] == Los(b, i, j)[k - i];
      }
    }
  }

  lemma HisEqualIff(a: Cube, b: Cube, i: nat, j: nat)
    requires i <= j
    ensures His(a, i, j) == His(b, i, j) <==> forall k :: i <= k < j ==> a.Hi(k) == b.Hi(k)
  {
    if His(a, i, j) == His(b, i, j) {
      forall k | i <= k < j ensures a.Hi(k) == b.Hi(k) {
        assert His(a, i, j)[k - i] == His(b, i, j)[k - i];
      }
    }
  }

  /** Same box: same axes and same extents, whatever the corner order and point flag. */
  predicate SameBox(a: Cube, b: Cube) {
    a.dim == b.dim && forall k :: 0 <= k < a.dim ==> a.Lo(k) == b.Lo(k) && a.Hi(k) == b.Hi(k)
  }

  lemma CmpZeroIff(a: Cube, b: Cube)
    ensures -1 <= Cmp(a, b) <= 1
    ensures Cmp(a, b) == 0 <==> SameBox(a, b)
  {
    var m, n := MinDim(a, b), MaxDim(a, b);
    LexZeroIff(Los(a, 0, m), Los(b, 0, m));
    LexZeroIff(His(a, 0, m), His(b, 0, m));
    LexZeroIff(Los(a, m, n), Los(b, m, n));
    LexZeroIff(His(a, m, n), His(b, m, n));
    LosEqualIff(a, b, 0, m);
    HisEqualIff(a, b, 0, m);
    LosEqualIff(a, b, m, n);
    HisEqualIff(a, b, m, n);
  }

  lemma CmpAntisymmetric(a: Cube, b: Cube)
    ensures Cmp(a, b) == -Cmp(b, a)
  {
    var m, n := MinDim(a, b), MaxDim(a, b);
    LexAntisymmetric(Los(a, 0, m), Los(b, 0, m));
    LexAntisymmetric(His(a, 0, m), His(b, 0, m));
    LexAntisymmetric(Los(a, m, n), Los(b, m, n));
    LexAntisymmetric(His(a, m, n), His(b, m, n));
  }

  lemma LexAppend(s: seq<real>, t: seq<real>, x: real, y: real)
    requires |s| == |t|
    ensures Lex(s + [x], t + [y]) == First(Lex(s, t), Sign(x, y))
  {
    if s == [] {
      assert s + [x] == [x] && t + [y] == [y];
      assert Lex([x], [y]) == First(Sign(x, y), Lex([x][1..], [y][1..]));
    } else {
      LexAppend(s[1..], t[1..], x, y);
      assert (s + [x])[1..] == s[1..] + [x] && (t + [y])[1..] == t[1..] + [y];
    }
  }

  /** Two dimensions can be mixed if they are equal or one of them is zero. */
  predicate Mixable(d: nat, n: nat) {
    d == 0 || n == 0 || d == n
  }

  /** Then the comparison is one over all axes: lower extents, upper extents, dimension. */
  lemma CmpMixable(a: Cube, b: Cube, n: nat)
    requires a.dim in {0, n} && b.dim in {0, n}
    ensures Cmp(a, b) == First(Lex(Los(a, 0, n), Los(b, 0, n)),
                               Lex(His(a, 0, n) + [a.dim as real], His(b, 0, n) + [b.dim as real]))
  {
    LexAppend(His(a, 0, n), His(b, 0, n), a.dim as real, b.dim as real);
    if a.dim == 0 && b.dim == 0 {
      LosEqualIff(a, b, 0, n);
      HisEqualIff(a, b, 0, n);
      LexZeroIff(Los(a, 0, n), Los(b, 0, n));
      LexZeroIff(His(a, 0, n), His(b, 0, n));
    }
  }

  /** Among cubes of one dimension, and of dimension zero, the order is total. */
  lemma CmpTransitive(a: Cube, b: Cube, c: Cube)
    requires Mixable(a.dim, b.dim) && Mixable(b.dim, c.dim) && Mixable(a.dim, c.dim)
    requires Cmp(a, b) <= 0 && Cmp(b, c) <= 0
    ensures Cmp(a, c) <= 0
  {
    var n := if a.dim != 0 then a.dim else if b.dim != 0 then b.dim else c.dim;
    CmpMixable(a, b, n);
    CmpMixable(b, c, n);
    CmpMixable(a, c, n);
    PairTransitive(Los(a, 0, n), Los(b, 0, n), Los(c, 0, n), His(a, 0, n) + [a.dim as real],
                   His(b, 0, n) + [b.dim as real], His(c, 0, n) + [c.dim as real]);
  }

  lemma PairTransitive(s: seq<real>, t: seq<real>, u: seq<real>, s': seq<real>, t': seq<real>, u': seq<real>)
    requires |s| == |t| == |u| && |s'| == |t'| == |u'|
    requires First(Lex(s, t), Lex(s', t')) <= 0 && First(Lex(t, u), Lex(t', u')) <= 0
    ensures First(Lex(s, u), Lex(s', u')) <= 0
  {
    LexTransitive(s, t, u);
    LexZeroIff(s, u);
    LexZeroIff(s, t);
    LexAntisymmetric(s, t);
    if s == t == u {
      LexTransitive(s', t', u');
    }
  }

  // ----- Across dimensions it is not an order

  /** Upper extent h on the first axis; on axis d, if there is one, the point v. */
  function Spike(dim: nat, d: nat, h: real, v: real): (b: Cube)
    requires 0 < d <= dim
  {
    Box(dim, false, seq(2 * dim, k requires 0 <= k < 2 * dim =>
                          if k == dim then h else if k == d || k == dim + d then v else 0.0))
  }

  lemma SpikeExtents(dim: nat, d: nat, h: real, v: real, k: nat)
    requires 0 < d <= dim && h > 0.0
    ensures var b := Spike(dim, d, h, v);
            && b.Lo(k) == (if k == d < dim then v else 0.0)
            && b.Hi(k) == (if k == 0 then h else if k == d < dim then v else 0.0)
  {
  }

  /** Equal leading lower extents are passed over. */
  lemma {:induction false} LosSkip(a: Cube, b: Cube, i: nat, d: nat, j: nat)
    requires i <= d <= j && forall k :: i <= k < d ==> a.Lo(k) == b.Lo(k)
    ensures Lex(Los(a, i, j), Los(b, i, j)) == Lex(Los(a, d, j), Los(b, d, j))
    decreases d - i
  {
    if i < d {
      LosFirst(a, b, i, j);
      LosSkip(a, b, i + 1, d, j);
    }
  }

  /** A cube of fewer axes against a spike: the first upper extent decides. */
  lemma SpikesCompare(n: nat, d: nat, h: real, h': real, v: real)
    requires 0 < d < n && h > 0.0 && h' > 0.0 && h != h'
    ensures Cmp(Spike(d, d, h, 0.0), Spike(n, d, h', v)) == Sign(h, h')
  {
    var a, b := Spike(d, d, h, 0.0), Spike(n, d, h', v);
    forall k | 0 <= k < d ensures a.Lo(k) == b.Lo(k) == 0.0 {
      SpikeExtents(d, d, h, 0.0, k);
      SpikeExtents(n, d, h', v, k);
    }
    LosEqualIff(a, b, 0, d);
    LexZeroIff(Los(a, 0, d), Los(b, 0, d));
    HisFirst(a, b, 0, d);
    SpikeExtents(d, d, h, 0.0, 0);
    SpikeExtents(n, d, h', v, 0);
  }

  /** Two spikes of the same shape: the position on axis d decides. */
  lemma SpikesOrder(n: nat, d: nat, h: real, h': real, v: real, v': real)
    requires 0 < d < n && h > 0.0 && h' > 0.0 && v != v'
    ensures Cmp(Spike(n, d, h, v), Spike(n, d, h', v')) == Sign(v, v')
  {
    var a, b := Spike(n, d, h, v), Spike(n, d, h', v');
    forall k | 0 <= k < d ensures a.Lo(k) == b.Lo(k) {
      SpikeExtents(n, d, h, v, k);
      SpikeExtents(n, d, h', v', k);
    }
    LosSkip(a, b, 0, d, n);
    LosFirst(a, b, d, n);
    SpikeExtents(n, d, h, v, d);
    SpikeExtents(n, d, h', v', d);
  }

  /** Three cubes, each above the next, for any two different dimensions above zero. The shared
      axes of a pair, and so the sequence of comparisons, depend on the pair. */
  lemma CmpCycle(d: nat, n: nat)
    requires 0 < d < n
    ensures var a, b, c := Spike(d, d, 2.0, 0.0), Spike(n, d, 1.0, 5.0), Spike(n, d, 3.0, 4.0);
            Cmp(a, b) == 1 && Cmp(b, c) == 1 && Cmp(c, a) == 1
  {
    var a, c := Spike(d, d, 2.0, 0.0), Spike(n, d, 3.0, 4.0);
    SpikesCompare(n, d, 2.0, 1.0, 5.0);
    SpikesOrder(n, d, 1.0, 3.0, 5.0, 4.0);
    SpikesCompare(n, d, 2.0, 3.0, 4.0);
    CmpAntisymmetric(c, a);
  }

  /** The order is transitive on the cubes of these dimensions. */
  ghost predicate OrdersDimensions(dims: set<nat>) {
    forall a: Cube, b: Cube, c: Cube ::
      a.dim in dims && b.dim in dims && c.dim in dims && Cmp(a, b) <= 0 && Cmp(b, c) <= 0 ==> Cmp(a, c) <= 0
  }

  /** cube_cmp_v0 orders the cubes of some dimensions if and only if no two of those dimensions
      are different and above zero. */
  lemma TransitiveIff(dims: set<nat>)
    ensures OrdersDimensions(dims) <==> forall d, n :: d in dims && n in dims ==> Mixable(d, n)
  {
    if forall d, n :: d in dims && n in dims ==> Mixable(d, n) {
      forall a: Cube, b: Cube, c: Cube
        | a.dim in dims && b.dim in dims && c.dim in dims && Cmp(a, b) <= 0 && Cmp(b, c) <= 0
        ensures Cmp(a, c) <= 0
      {
        assert Mixable(a.dim, b.dim) && Mixable(b.dim, c.dim) && Mixable(a.dim, c.dim);
        CmpTransitive(a, b, c);
      }
    } else {
      var d, n :| d in dims && n in dims && !Mixable(d, n);
      CycleBreaksOrder(dims, if d < n then d else n, if d < n then n else d);
    }
  }

  lemma CycleBreaksOrder(dims: set<nat>, d: nat, n: nat)
    requires 0 < d < n && d in dims && n in dims
    ensures !OrdersDimensions(dims)
  {
    var a, b, c := Spike(d, d, 2.0, 0.0), Spike(n, d, 1.0, 5.0), Spike(n, d, 3.0, 4.0);
    CmpCycle(d, n);
    CmpAntisymmetric(a, b);
    CmpAntisymmetric(b, c);
    CmpAntisymmetric(c, a);
    assert Cmp(b, a) <= 0 && Cmp(c, b) <= 0 && Cmp(c, a) > 0;
  }

  // ----- The loops of cube_cmp_v0

  lemma LosFirst(a: Cube, b: Cube, i: nat, j: nat)
    requires i < j
    ensures Lex(Los(a, i, j), Los(b, i, j)) == First(Sign(a.Lo(i), b.Lo(i)), Lex(Los(a, i + 1, j), Los(b, i + 1, j)))
  {
    assert Los(a, i, j)[1..] == Los(a, i + 1, j) && Los(b, i, j)[1..] == Los(b, i + 1, j);
  }

  lemma HisFirst(a: Cube, b: Cube, i: nat, j: nat)
    requires i < j
    ensures Lex(His(a, i, j), His(b, i, j)) == First(Sign(a.Hi(i), b.Hi(i)), Lex(His(a, i + 1, j), His(b, i + 1, j)))
  {
    assert His(a, i, j)[1..] == His(a, i + 1, j) && His(b, i, j)[1..] == His(b, i + 1, j);
  }

  method CompareShared(a: Cube, b: Cube, dim: nat) returns (r: int)
    requires dim == MinDim(a, b)
    ensures r == First(Lex(Los(a, 0, dim), Los(b, 0, dim)), Lex(His(a, 0, dim), His(b, 0, dim)))
  {
    for i := 0 to dim
      invariant Lex(Los(a, 0, dim), Los(b, 0, dim)) == Lex(Los(a, i, dim), Los(b, i, dim))
    {
      LosFirst(a, b, i, dim);
      if Min(a.LL(i), a.UR(i)) > Min(b.LL(i), b.UR(i)) {
        return 1;
      }
      if Min(a.LL(i), a.UR(i)) < Min(b.LL(i), b.UR(i)) {
        return -1;
      }
    }
    for i := 0 to dim
      invariant Lex(His(a, 0, dim), His(b, 0, dim)) == Lex(His(a, i, dim), His(b, i, dim))
    {
      HisFirst(a, b, i, dim);
      if Max(a.LL(i), a.UR(i)) > Max(b.LL(i), b.UR(i)) {
        return 1;
      }
      if Max(a.LL(i), a.UR(i)) < Max(b.LL(i), b.UR(i)) {
        return -1;
      }
    }
    return 0;
  }

  /** The axes that only a has, against zero; failing those, the cube with more axes wins. */
  method CompareExtra(a: Cube, b: Cube) returns (r: int)
    requires a.dim > b.dim
    ensures r == First(Lex(Los(a, b.dim, a.dim), Los(b, b.dim, a.dim)), First(Lex(His(a, b.dim, a.dim), His(b, b.dim, a.dim)), 1))
  {
    for i := b.dim to a.dim
      invariant Lex(Los(a, b.dim, a.dim), Los(b, b.dim, a.dim)) == Lex(Los(a, i, a.dim), Los(b, i, a.dim))
    {
      LosFirst(a, b, i, a.dim);
      if Min(a.LL(i), a.UR(i)) > 0.0 {
        return 1;
      }
      if Min(a.LL(i), a.UR(i)) < 0.0 {
        return -1;
      }
    }
    for i := b.dim to a.dim
      invariant Lex(His(a, b.dim, a.dim), His(b, b.dim, a.dim)) == Lex(His(a, i, a.dim), His(b, i, a.dim))
    {
      HisFirst(a, b, i, a.dim);
      if Max(a.LL(i), a.UR(i)) > 0.0 {
        return 1;
      }
      if Max(a.LL(i), a.UR(i)) < 0.0 {
        return -1;
      }
    }
    return 1;
  }

  /** cube_cmp_v0 */
  method CubeCmp(a: Cube, b: Cube) returns (r: int)
    ensures r == Cmp(a, b)
  {
    r := CompareShared(a, b, MinDim(a, b));
    if r != 0 {
      return;
    }
    if a.dim > b.dim {
      r := CompareExtra(a, b);
    } else if a.dim < b.dim {
      CmpAntisymmetric(a, b);
      LexAntisymmetric(Los(a, 0, a.dim), Los(b, 0, a.dim));
      LexAntisymmetric(His(a, 0, a.dim), His(b, 0, a.dim));
      r := CompareExtra(b, a);
      r := -r;
    }
  }
}
