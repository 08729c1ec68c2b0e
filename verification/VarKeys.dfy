/** GiST keys over byte strings with truncated bounds
    (contrib/btree_gist/btree_utils_var.c with the bytea settings: trnc set, no
    leaf-to-node transform). */
module VarKeys {
  import opened Bags
  import opened VarBytes

  /** A node key; a leaf entry has lower == upper. */
  datatype VarKey = VarKey(lower: Bytes, upper: Bytes)

  predicate Ordered(n: VarKey) {
    Le(n.lower, n.upper)
  }

  predicate AllOrdered(es: seq<VarKey>) {
    forall i :: 0 <= i < |es| ==> Ordered(es[i])
  }

  function Shared(n: VarKey): nat {
    CommonPrefix(n.lower, n.upper)
  }

  /** gbt_var_bin_union */
  function BinUnion(u: VarKey, e: VarKey): VarKey {
    VarKey(if !Le(u.lower, e.lower) then e.lower else u.lower,
           if !Le(e.upper, u.upper) then e.upper else u.upper)
  }

  /** gbt_var_bin_union over entries, starting from the first. */
  function UnionAll(es: seq<VarKey>): VarKey
    requires es != []
  {
    if |es| == 1 then es[0] else BinUnion(UnionAll(es[..|es| - 1]), es[|es| - 1])
  }

  /** gbt_var_node_truncate(node, cut - 1): at most cut bytes of each bound. */
  function Cut(n: VarKey, cut: nat): VarKey {
    VarKey(Take(n.lower, cut), Take(n.upper, cut))
  }

  /** gbt_var_union: bounds cut two bytes after their common prefix. */
  function Union(es: seq<VarKey>): VarKey
    requires es != []
  {
    Cut(UnionAll(es), Shared(UnionAll(es)) + 2)
  }

  lemma UnionOfTwo(a: VarKey, b: VarKey)
    ensures UnionAll([a, b]) == BinUnion(a, b)
  {
    assert [a, b][..1] == [a];
  }

  // ----- Which keys a node key stands for

  /** The upper bound is long enough to stand for its extensions too. */
  predicate Open(n: VarKey) {
    |n.upper| >= Shared(n) + 2
  }

  predicate Covers(n: VarKey, k: Bytes) {
    Le(n.lower, k) && (Le(k, n.upper) || (Open(n) && n.upper <= k))
  }

  /** As Covers, for bounds not cut yet: what cutting two bytes after the common prefix
      would cover. */
  predicate Loosely(n: VarKey, k: Bytes) {
    Le(n.lower, k) && (Le(k, n.upper) || (Open(n) && n.upper[..Shared(n) + 2] <= k))
  }

  lemma BinUnionBounds(u: VarKey, e: VarKey)
    requires Ordered(u) && Ordered(e)
    ensures var n := BinUnion(u, e);
            Ordered(n) && Le(n.lower, u.lower) && Le(n.lower, e.lower) && Le(u.upper, n.upper) && Le(e.upper, n.upper)
  {
    var n := BinUnion(u, e);
    LeReflexive(u.lower);
    LeReflexive(e.lower);
    LeReflexive(u.upper);
    LeReflexive(e.upper);
    LeTotal(u.lower, e.lower);
    LeTotal(e.upper, u.upper);
    LeTransitive(n.lower, u.lower, u.upper);
    LeTransitive(n.lower, u.upper, n.upper);
  }

  /** Widening a node key keeps what it covers. */
  lemma WideningCovers(e: VarKey, n: VarKey, k: Bytes)
    requires Ordered(e) && Le(n.lower, e.lower) && Le(e.upper, n.upper)
    requires Loosely(e, k)
    ensures Loosely(n, k)
  {
    LeTransitive(n.lower, e.lower, k);
    if Le(k, e.upper) {
      LeTransitive(k, e.upper, n.upper);
    } else if !Le(k, n.upper) {
      CommonPrefixShrinks(n.lower, e.lower, e.upper, n.upper);
      var p := e.upper[..Shared(e) + 2];
      LeTotal(n.upper, k);
      Sandwich(p, e.upper, n.upper, k);
      assert n.upper[..Shared(n) + 2] == p[..Shared(n) + 2];
    }
  }

  lemma CoversIsLoose(n: VarKey, k: Bytes)
    requires Covers(n, k)
    ensures Loosely(n, k)
  {
    if !Le(k, n.upper) {
      assert n.upper[..Shared(n) + 2] <= n.upper;
    }
  }

  lemma {:induction false} UnionAllWidens(es: seq<VarKey>, i: nat)
    requires i < |es| && AllOrdered(es)
    ensures var n := UnionAll(es);
            Ordered(n) && Le(n.lower, es[i].lower) && Le(es[i].upper, n.upper)
    decreases |es|
  {
    if |es| == 1 {
      LeReflexive(es[0].lower);
      LeReflexive(es[0].upper);
    } else {
      var init, last := es[..|es| - 1], es[|es| - 1];
      UnionAllWidens(init, if i < |es| - 1 then i else 0);
      BinUnionBounds(UnionAll(init), last);
      if i < |es| - 1 {
        var u, n := UnionAll(init), UnionAll(es);
        LeTransitive(n.lower, u.lower, es[i].lower);
        LeTransitive(es[i].upper, u.upper, n.upper);
      }
    }
  }

  /** Cutting keeps what was covered: at two bytes past the bounds' own common prefix,
      for loose covers; at any later place, for keys between the bounds. */
  lemma CutCovers(n: VarKey, k: Bytes, cut: nat)
    requires Ordered(n) && cut >= Shared(n) + 2
    requires if cut == Shared(n) + 2 then Loosely(n, k) else Le(n.lower, k) && Le(k, n.upper)
    ensures Covers(Cut(n, cut), k) && Ordered(Cut(n, cut))
  {
    TakeMonotone(n.lower, n.upper, cut);
    TakeCommonPrefix(n.lower, n.upper, cut);
    PrefixLe(Take(n.lower, cut), n.lower);
    LeTransitive(Take(n.lower, cut), n.lower, k);
    if Le(k, n.upper) {
      CutBound(k, n.upper, cut);
    }
  }

  /** gbt_var_union covers all that its entries cover, at any depth. */
  lemma UnionCovers(es: seq<VarKey>, i: nat, k: Bytes)
    requires i < |es| && AllOrdered(es) && Covers(es[i], k)
    ensures Covers(Union(es), k) && Ordered(Union(es))
  {
    UnionAllWidens(es, i);
    CoversIsLoose(es[i], k);
    WideningCovers(es[i], UnionAll(es), k);
    CutCovers(UnionAll(es), k, Shared(UnionAll(es)) + 2);
  }

  // ----- Splitting a page: both halves are cut at the same place

  /** Cutting the union of these entries at cut loses no key of this one, by inspection of
      bytes: if the entry is open and the cut bound properly extends its upper bound, it does
      so by 0xFF bytes only. */
  predicate SafeAt(es: seq<VarKey>, cut: nat, i: nat)
    requires i < |es|
  {
    var u' := Cut(UnionAll(es), cut).upper;
    Open(es[i]) && es[i].upper < u' ==> forall j :: |es[i].upper| <= j < |u'| ==> u'[j] == 255
  }

  predicate CutSafe(es: seq<VarKey>, cut: nat)
    requires es != []
  {
    forall i :: 0 <= i < |es| ==> SafeAt(es, cut, i)
  }

  /** The cut half covers whatever its entries cover. */
  ghost predicate HalfSound(es: seq<VarKey>, cut: nat)
    requires es != []
  {
    forall i, k :: 0 <= i < |es| && Covers(es[i], k) ==> Covers(Cut(UnionAll(es), cut), k)
  }

  /** Beyond a string of 0xFF bytes there are only its extensions. */
  lemma {:induction false} AllOnes(x: Bytes, y: Bytes)
    requires forall j :: 0 <= j < |y| ==> y[j] == 255
    ensures Le(x, y) || y <= x
  {
    if x != [] && y != [] {
      AllOnes(x[1..], y[1..]);
      if x[0] == 255 {
        assert x == [x[0]] + x[1..] && y == [y[0]] + y[1..];
      }
    }
  }

  /** A string below another and no prefix of it stays below when extended. */
  lemma {:induction false} ExtendBelow(u: Bytes, v: Bytes, k: Bytes)
    requires Le(u, v) && u <= k
    ensures Le(k, v) || u <= v
  {
    if u != [] && v[0] == u[0] {
      ExtendBelow(u[1..], v[1..], k[1..]);
      assert u == [u[0]] + u[1..] && v == [v[0]] + v[1..];
    }
  }

  lemma {:induction false} PrefixPeel(u: Bytes, a: Bytes, b: Bytes)
    requires u <= a && u <= b
    ensures Le(a, b) <==> Le(a[|u|..], b[|u|..])
  {
    if u != [] {
      PrefixPeel(u[1..], a[1..], b[1..]);
      assert a[1..][|u| - 1..] == a[|u|..] && b[1..][|u| - 1..] == b[|u|..];
    }
  }

  /** An open entry's extensions and the cut bound. */
  lemma OpenEntryCovered(es: seq<VarKey>, cut: nat, i: nat, k: Bytes)
    requires i < |es| && AllOrdered(es) && cut >= Shared(UnionAll(es)) + 2
    requires SafeAt(es, cut, i) && Open(es[i]) && es[i].upper <= k
    ensures var u' := Cut(UnionAll(es), cut).upper; Le(k, u') || (Open(Cut(UnionAll(es), cut)) && u' <= k)
  {
    var n := UnionAll(es);
    var n', e := Cut(n, cut), es[i];
    UnionAllWidens(es, i);
    CommonPrefixShrinks(n.lower, e.lower, e.upper, n.upper);
    TakeCommonPrefix(n.lower, n.upper, cut);
    CutBound(e.upper, n.upper, cut);
    if Le(e.upper, n'.upper) {
      ExtendBelow(e.upper, n'.upper, k);
      if e.upper <= n'.upper {
        var y := n'.upper[|e.upper|..];
        AllOnes(k[|e.upper|..], y);
        PrefixPeel(e.upper, k, n'.upper);
        assert n'.upper == e.upper + y && k == e.upper + k[|e.upper|..];
      }
    }
  }

  lemma SafeCutIsSound(es: seq<VarKey>, cut: nat, i: nat, k: Bytes)
    requires i < |es| && AllOrdered(es) && cut >= Shared(UnionAll(es)) + 2
    requires SafeAt(es, cut, i) && Covers(es[i], k)
    ensures Covers(Cut(UnionAll(es), cut), k) && Ordered(Cut(UnionAll(es), cut))
  {
    var n, e := UnionAll(es), es[i];
    UnionAllWidens(es, i);
    LeTransitive(n.lower, e.lower, k);
    if Le(k, e.upper) {
      LeTransitive(k, e.upper, n.upper);
      CutCovers(n, k, cut);
    } else {
      OpenEntryCovered(es, cut, i, k);
      TakeMonotone(n.lower, n.upper, cut);
      PrefixLe(Take(n.lower, cut), n.lower);
      LeTransitive(Take(n.lower, cut), n.lower, k);
    }
  }

  /** The key just past the cut bound, under the entry it extends. */
  lemma UnsafeCutLosesKey(es: seq<VarKey>, cut: nat, i: nat) returns (k: Bytes)
    requires i < |es| && AllOrdered(es) && !SafeAt(es, cut, i)
    ensures Covers(es[i], k) && es[i].upper <= k && !Covers(Cut(UnionAll(es), cut), k)
    ensures var u' := Cut(UnionAll(es), cut).upper; !Le(k, u') && !(u' <= k)
  {
    var u' := Cut(UnionAll(es), cut).upper;
    var j :| |es[i].upper| <= j < |u'| && u'[j] != 255;
    k := u'[..j] + [u'[j] + 1];
    var e := es[i];
    assert e.upper <= k;
    PrefixLe(e.upper, k);
    LeTransitive(e.lower, e.upper, k);
    PrefixPeel(u'[..j], k, u');
    assert k[j..] == [u'[j] + 1] && u'[j..][0] == u'[j];
  }

  /** When a shared cut is sound: exactly when it is safe on the entries' bytes. */
  lemma SplitSoundIff(es: seq<VarKey>, cut: nat)
    requires es != [] && AllOrdered(es) && cut >= Shared(UnionAll(es)) + 2
    ensures HalfSound(es, cut) <==> CutSafe(es, cut)
  {
    if CutSafe(es, cut) {
      forall i, k | 0 <= i < |es| && Covers(es[i], k) ensures Covers(Cut(UnionAll(es), cut), k) {
        SafeCutIsSound(es, cut, i, k);
      }
    } else {
      var i :| 0 <= i < |es| && !SafeAt(es, cut, i);
      var k := UnsafeCutLosesKey(es, cut, i);
    }
  }

  lemma LeafEntryIsClosed(e: VarKey)
    requires e.lower == e.upper
    ensures !Open(e)
  {
    CommonPrefixIsLongest(e.upper, e.lower, e.upper);
  }

  /** Any cut of leaf entries is safe. */
  lemma LeafCutIsSafe(es: seq<VarKey>, cut: nat)
    requires es != [] && forall i :: 0 <= i < |es| ==> es[i].lower == es[i].upper
    ensures CutSafe(es, cut)
  {
    forall i | 0 <= i < |es| ensures !Open(es[i]) {
      LeafEntryIsClosed(es[i]);
    }
  }

  /** So is a cut two bytes past the half's own common prefix. */
  lemma OwnCutIsSafe(es: seq<VarKey>)
    requires es != [] && AllOrdered(es)
    ensures CutSafe(es, Shared(UnionAll(es)) + 2)
  {
    var n := UnionAll(es);
    var cut := Shared(n) + 2;
    forall i | 0 <= i < |es| ensures SafeAt(es, cut, i) {
      UnionAllWidens(es, i);
      CommonPrefixShrinks(n.lower, es[i].lower, es[i].upper, n.upper);
    }
  }

  // ----- The loops

  /** gbt_var_union */
  method UnionEntries(es: seq<VarKey>) returns (out: VarKey)
    requires es != []
    ensures out == Union(es)
  {
    out := es[0];
    var i := 1;
    while i < |es|
      invariant 1 <= i <= |es|
      invariant out == UnionAll(es[0..i])
    {
      UnionRange(es, 0, i);
      out := BinUnion(out, es[i]);
      i := i + 1;
    }
    assert es[0..|es|] == es;
    var plen := CommonPrefixLength(out.lower, out.upper);
    out := Cut(out, plen + 2);
  }

  lemma UnionRange(es: seq<VarKey>, lo: nat, i: nat)
    requires lo <= i < |es|
    ensures UnionAll(es[lo..i + 1]) == if i == lo then es[lo] else BinUnion(UnionAll(es[lo..i]), es[i])
  {
    assert es[lo..i + 1][..i - lo] == es[lo..i];
  }

  /** The cut gbt_var_picksplit uses for both halves. */
  function SharedCut(left: seq<VarKey>, right: seq<VarKey>): nat
    requires left != [] && right != []
  {
    var ll, lr := Shared(UnionAll(left)), Shared(UnionAll(right));
    (if ll > lr then ll else lr) + 2
  }

  /** The distribution loop of gbt_var_picksplit: the first half goes left. */
  method SplitUnions(arr: seq<VarKey>) returns (l: VarKey, r: VarKey)
    requires |arr| >= 2
    ensures l == UnionAll(arr[0..|arr| / 2]) && r == UnionAll(arr[|arr| / 2..|arr|])
  {
    var half := |arr| / 2;
    l, r := arr[0], arr[half];
    UnionRange(arr, 0, 0);
    UnionRange(arr, half, half);
    var i := 1;
    while i < |arr|
      invariant 1 <= i <= |arr|
      invariant i <= half ==> l == UnionAll(arr[0..i]) && r == arr[half]
      invariant i > half ==> l == UnionAll(arr[0..half]) && r == UnionAll(arr[half..i])
    {
      if i < half {
        UnionRange(arr, 0, i);
        l := BinUnion(l, arr[i]);
      } else if i > half {
        UnionRange(arr, half, i);
        r := BinUnion(r, arr[i]);
      }
      i := i + 1;
    }
  }

  /** gbt_vsrt_cmp does not put b before a. */
  predicate InSortOrder(a: VarKey, b: VarKey) {
    Lt(a.lower, b.lower) || (a.lower == b.lower && Le(a.upper, b.upper))
  }

  predicate Sorts(es: seq<VarKey>, order: seq<nat>) {
    && Permutation(order, |es|)
    && (forall i, j :: 0 <= i < j < |es| ==> InSortOrder(es[order[i]], es[order[j]]))
  }

  /** The keys of the two halves of a page whose entries have been put in order. */
  function SplitKeys(arr: seq<VarKey>): (VarKey, VarKey)
    requires |arr| >= 2
  {
    var half := |arr| / 2;
    var left, right := arr[0..half], arr[half..|arr|];
    var cut := SharedCut(left, right);
    (Cut(UnionAll(left), cut), Cut(UnionAll(right), cut))
  }

  /** The offset lists of gbt_var_picksplit. */
  method Distribute(order: seq<nat>) returns (left: seq<nat>, right: seq<nat>)
    ensures left == order[..|order| / 2] && right == order[|order| / 2..]
  {
    var half := |order| / 2;
    left, right := [], [];
    var i := 0;
    while i < |order|
      invariant 0 <= i <= |order| && |left| == (if i < half then i else half) && |right| == i - |left|
      invariant forall k :: 0 <= k < |left| ==> left[k] == order[k]
      invariant forall k :: 0 <= k < |right| ==> right[k] == order[half + k]
    {
      if i < half {
        left := left + [order[i]];
      } else {
        right := right + [order[i]];
      }
      i := i + 1;
    }
  }

  /** gbt_var_picksplit, given the order that its sort produces: the entries that sort first
      go left, and both keys are cut at the same place. */
  method PickSplit(es: seq<VarKey>, order: seq<nat>) returns (l: VarKey, r: VarKey, left: seq<nat>, right: seq<nat>)
    requires |es| >= 2 && Sorts(es, order)
    ensures left == order[..|es| / 2] && right == order[|es| / 2..]
    ensures (l, r) == SplitKeys(Pick(es, order))
  {
    left, right := Distribute(order);
    l, r := SplitUnions(Pick(es, order));
    var ll := CommonPrefixLength(l.lower, l.upper);
    var lr := CommonPrefixLength(r.lower, r.upper);
    ll := if ll > lr then ll else lr;
    l := Cut(l, ll + 2);
    r := Cut(r, ll + 2);
  }
}
