/** Byte strings in the order of byteacmp: bytes first, then length. */
module VarBytes {

  type Byte = b: int | 0 <= b < 256
  type Bytes = seq<Byte>

  /** a sorts at or before b. */
  predicate Le(a: Bytes, b: Bytes) {
    a == [] || (b != [] && (a[0] < b[0] || (a[0] == b[0] && Le(a[1..], b[1..]))))
  }

  predicate Lt(a: Bytes, b: Bytes) {
    !Le(b, a)
  }

  /** Length of the longest common prefix. */
  function CommonPrefix(a: Bytes, b: Bytes): (n: nat)
    ensures n <= |a| && n <= |b|
  {
    if a != [] && b != [] && a[0] == b[0] then 1 + CommonPrefix(a[1..], b[1..]) else 0
  }

  function Take(a: Bytes, n: nat): Bytes {
    if n < |a| then a[..n] else a
  }

  // ----- The order is total

  lemma {:induction false} LeReflexive(a: Bytes)
    ensures Le(a, a)
  {
    if a != [] {
      LeReflexive(a[1..]);
    }
  }

  lemma {:induction false} LeTotal(a: Bytes, b: Bytes)
    ensures Le(a, b) || Le(b, a)
  {
    if a != [] && b != [] && a[0] == b[0] {
      LeTotal(a[1..], b[1..]);
    }
  }

  lemma {:induction false} LeTransitive(a: Bytes, b: Bytes, c: Bytes)
    requires Le(a, b) && Le(b, c)
    ensures Le(a, c)
  {
    if a != [] && a[0] == b[0] == c[0] {
      LeTransitive(a[1..], b[1..], c[1..]);
    }
  }

  lemma {:induction false} LeAntisymmetric(a: Bytes, b: Bytes)
    requires Le(a, b) && Le(b, a)
    ensures a == b
  {
    if a != [] {
      LeAntisymmetric(a[1..], b[1..]);
      assert a == [a[0]] + a[1..] && b == [b[0]] + b[1..];
    }
  }

  // ----- Prefixes and the order

  lemma {:induction false} PrefixLe(a: Bytes, b: Bytes)
    requires a <= b
    ensures Le(a, b)
  {
    if a != [] {
      PrefixLe(a[1..], b[1..]);
    }
  }

  /** Whatever lies between two strings with a common prefix has that prefix. */
  lemma {:induction false} Sandwich(p: Bytes, a: Bytes, b: Bytes, c: Bytes)
    requires p <= a && p <= c && Le(a, b) && Le(b, c)
    ensures p <= b
  {
    if p != [] {
      assert a[0] == p[0] == c[0] == b[0];
      Sandwich(p[1..], a[1..], b[1..], c[1..]);
      assert p == [p[0]] + p[1..] && b == [b[0]] + b[1..];
    }
  }

  /** Cutting an upper bound leaves an upper bound, or a prefix of the key. */
  lemma {:induction false} CutBound(k: Bytes, u: Bytes, n: nat)
    requires Le(k, u)
    ensures Le(k, Take(u, n)) || (Take(u, n) <= k && |Take(u, n)| == n)
  {
    if k != [] && n > 0 && k[0] == u[0] {
      CutBound(k[1..], u[1..], n - 1);
      assert Take(u, n) == [u[0]] + Take(u[1..], n - 1);
      assert k == [k[0]] + k[1..];
    }
  }

  lemma {:induction false} TakeMonotone(a: Bytes, b: Bytes, n: nat)
    requires Le(a, b)
    ensures Le(Take(a, n), Take(b, n))
  {
    if a != [] && n > 0 && a[0] == b[0] {
      TakeMonotone(a[1..], b[1..], n - 1);
      assert Take(a, n) == [a[0]] + Take(a[1..], n - 1);
      assert Take(b, n) == [b[0]] + Take(b[1..], n - 1);
    }
  }

  // ----- Common prefixes

  lemma {:induction false} CommonPrefixIsCommon(a: Bytes, b: Bytes)
    ensures a[..CommonPrefix(a, b)] == b[..CommonPrefix(a, b)]
  {
    if a != [] && b != [] && a[0] == b[0] {
      CommonPrefixIsCommon(a[1..], b[1..]);
      var n := CommonPrefix(a[1..], b[1..]);
      assert a[..n + 1] == [a[0]] + a[1..][..n] && b[..n + 1] == [b[0]] + b[1..][..n];
    }
  }

  lemma {:induction false} CommonPrefixIsLongest(p: Bytes, a: Bytes, b: Bytes)
    requires p <= a && p <= b
    ensures |p| <= CommonPrefix(a, b)
  {
    if p != [] {
      CommonPrefixIsLongest(p[1..], a[1..], b[1..]);
    }
  }

  /** The wider the interval, the shorter the common prefix. */
  lemma CommonPrefixShrinks(l: Bytes, l1: Bytes, u1: Bytes, u: Bytes)
    requires Le(l, l1) && Le(l1, u1) && Le(u1, u)
    ensures CommonPrefix(l, u) <= CommonPrefix(l1, u1)
  {
    var p := l[..CommonPrefix(l, u)];
    CommonPrefixIsCommon(l, u);
    LeTransitive(l, l1, u1);
    LeTransitive(l1, u1, u);
    Sandwich(p, l, l1, u);
    Sandwich(p, l, u1, u);
    CommonPrefixIsLongest(p, l1, u1);
  }

  lemma TakeCommonPrefix(a: Bytes, b: Bytes, n: nat)
    ensures CommonPrefix(Take(a, n), Take(b, n)) <= CommonPrefix(a, b)
  {
    var p := Take(a, n)[..CommonPrefix(Take(a, n), Take(b, n))];
    CommonPrefixIsCommon(Take(a, n), Take(b, n));
    CommonPrefixIsLongest(p, a, b);
  }

  /** gbt_var_node_cp_len for single-byte data: the byte loop. */
  method CommonPrefixLength(a: Bytes, b: Bytes) returns (i: nat)
    ensures i == CommonPrefix(a, b)
  {
    var ml := if |a| < |b| then |a| else |b|;
    i := 0;
    while i < ml
      invariant i <= ml
      invariant CommonPrefix(a, b) == i + CommonPrefix(a[i..], b[i..])
    {
      if a[i] != b[i] {
        return;
      }
      assert a[i..][1..] == a[i + 1..] && b[i..][1..] == b[i + 1..];
      i := i + 1;
    }
  }
}
