/** The tests of a search over truncated keys (contrib/btree_gist/btree_utils_var.c): which
    keys a half of a split page is still entered for. */
module VarSearch {
  import opened VarBytes
  import opened VarKeys

  datatype Strategy = Less | LessEqual | Equal | GreaterEqual | Greater | NotEqual

  /** A key satisfies `key strategy query`. */
  predicate Satisfies(k: Bytes, query: Bytes, s: Strategy) {
    match s
    case Less => Lt(k, query)
    case LessEqual => Le(k, query)
    case Equal => k == query
    case GreaterEqual => Le(query, k)
    case Greater => Lt(query, k)
    case NotEqual => k != query
  }

  /** gbt_var_consistent on a leaf entry, whose bounds are the key itself. */
  predicate LeafConsistent(n: VarKey, query: Bytes, s: Strategy) {
    match s
    case LessEqual => Le(n.lower, query)
    case Less => Lt(n.lower, query)
    case Equal => query == n.lower
    case Greater => Lt(query, n.upper)
    case GreaterEqual => Le(query, n.upper)
    case NotEqual => !(query == n.lower && query == n.upper)
  }

  /** gbt_var_node_pf_match: a bound is a prefix of the query. */
  predicate PrefixMatch(n: VarKey, query: Bytes) {
    n.lower <= query || n.upper <= query
  }

  /** gbt_var_consistent on an inner entry. */
  predicate InnerConsistent(n: VarKey, query: Bytes, s: Strategy) {
    match s
    case LessEqual => Le(n.lower, query) || PrefixMatch(n, query)
    case Less => Le(n.lower, query) || PrefixMatch(n, query)
    case Equal => (Le(n.lower, query) && Le(query, n.upper)) || PrefixMatch(n, query)
    case Greater => Le(query, n.upper) || PrefixMatch(n, query)
    case GreaterEqual => Le(query, n.upper) || PrefixMatch(n, query)
    case NotEqual => !(query == n.lower && query == n.upper)
  }

  lemma LeafIsExact(k: Bytes, query: Bytes, s: Strategy)
    ensures LeafConsistent(VarKey(k, k), query, s) <==> Satisfies(k, query, s)
  {
  }

  /** A node that covers a matching key is never rejected, for any of the six strategies. */
  lemma CoveredIsConsistent(n: VarKey, k: Bytes, query: Bytes, s: Strategy)
    requires Covers(n, k) && Satisfies(k, query, s)
    ensures InnerConsistent(n, query, s)
  {
    match s
    case LessEqual => LeTransitive(n.lower, k, query);
    case Less =>
      LeTotal(k, query);
      LeTransitive(n.lower, k, query);
    case Equal =>
    case GreaterEqual => AboveIsConsistent(n, k, query);
    case Greater =>
      LeTotal(query, k);
      AboveIsConsistent(n, k, query);
    case NotEqual =>
      if n.lower == query == n.upper {
        LeafEntryIsClosed(n);
        LeAntisymmetric(k, query);
        assert false;
      }
  }

  lemma AboveIsConsistent(n: VarKey, k: Bytes, query: Bytes)
    requires Covers(n, k) && Le(query, k)
    ensures Le(query, n.upper) || n.upper <= query
  {
    if Le(k, n.upper) {
      LeTransitive(query, k, n.upper);
    } else {
      LeTotal(query, n.upper);
      if Le(n.upper, query) {
        Sandwich(n.upper, n.upper, query, k);
      }
    }
  }

  // ----- When a cut half still answers searches

  /** The cut half is entered for every query that a key under an entry satisfies. */
  ghost predicate HalfSearchable(es: seq<VarKey>, cut: nat)
    requires es != []
  {
    forall i, k, query, s :: 0 <= i < |es| && Covers(es[i], k) && Satisfies(k, query, s) ==>
      InnerConsistent(Cut(UnionAll(es), cut), query, s)
  }

  /** No key of the entry is lost, or the half's lower bound is a prefix of whatever is. */
  predicate SearchSafeAt(es: seq<VarKey>, cut: nat, i: nat)
    requires i < |es|
  {
    SafeAt(es, cut, i) || Cut(UnionAll(es), cut).lower <= es[i].upper
  }

  predicate SearchSafe(es: seq<VarKey>, cut: nat)
    requires es != []
  {
    forall i :: 0 <= i < |es| ==> SearchSafeAt(es, cut, i)
  }

  /** The bounds of a half around an entry of it. */
  lemma HalfBounds(es: seq<VarKey>, cut: nat, i: nat)
    requires i < |es| && AllOrdered(es)
    ensures var n := Cut(UnionAll(es), cut); Le(n.lower, es[i].lower) && Le(n.lower, es[i].upper)
  {
    var n := UnionAll(es);
    UnionAllWidens(es, i);
    PrefixLe(Take(n.lower, cut), n.lower);
    LeTransitive(Take(n.lower, cut), n.lower, es[i].lower);
    LeTransitive(Take(n.lower, cut), es[i].lower, es[i].upper);
  }

  /** A key under an entry whose extensions the cut loses. */
  lemma LostButEntered(es: seq<VarKey>, cut: nat, i: nat, k: Bytes, query: Bytes, s: Strategy)
    requires i < |es| && AllOrdered(es) && !SafeAt(es, cut, i) && SearchSafeAt(es, cut, i)
    requires Covers(es[i], k) && Satisfies(k, query, s)
    ensures InnerConsistent(Cut(UnionAll(es), cut), query, s)
  {
    var n, e := Cut(UnionAll(es), cut), es[i];
    HalfBounds(es, cut, i);
    LeTransitive(n.lower, e.lower, k);
    PrefixLe(e.upper, n.upper);
    if Le(k, e.upper) {
      LeTransitive(k, e.upper, n.upper);
    }
    if Le(query, k) && !Le(query, n.upper) {
      AboveLostBound(n, e, k, query);
    }
    match s
    case LessEqual => LeTransitive(n.lower, k, query);
    case Less =>
      LeTotal(k, query);
      LeTransitive(n.lower, k, query);
    case Equal => LeReflexive(k);
    case GreaterEqual =>
    case Greater => LeTotal(query, k);
    case NotEqual =>
      if n.lower == n.upper {
        LeAntisymmetric(e.upper, n.upper);
      }
  }

  lemma AboveLostBound(n: VarKey, e: VarKey, k: Bytes, query: Bytes)
    requires Ordered(e) && e.upper < n.upper && n.lower <= e.upper && Covers(e, k)
    requires Le(query, k) && !Le(query, n.upper)
    ensures n.lower <= query
  {
    PrefixLe(e.upper, n.upper);
    LeTotal(query, n.upper);
    if Le(k, e.upper) {
      LeTransitive(query, k, e.upper);
      LeTransitive(query, e.upper, n.upper);
    }
    Sandwich(e.upper, n.upper, query, k);
  }

  /** Where the bound is no prefix either, an equality search for a lost key passes the half by. */
  lemma LostKeyNotFound(es: seq<VarKey>, cut: nat, i: nat) returns (k: Bytes)
    requires i < |es| && AllOrdered(es) && !SearchSafeAt(es, cut, i)
    ensures Covers(es[i], k) && !InnerConsistent(Cut(UnionAll(es), cut), k, Equal)
  {
    k := UnsafeCutLosesKey(es, cut, i);
    var n, e := Cut(UnionAll(es), cut), es[i];
    HalfBounds(es, cut, i);
    if n.lower <= k && |n.lower| > |e.upper| {
      assert e.upper <= n.lower;
      PrefixLe(e.upper, n.lower);
      LeAntisymmetric(e.upper, n.lower);
    }
  }

  /** When searches survive a shared cut: exactly when, for each entry, no key is lost or the
      half's lower bound is a prefix of the entry's upper bound. */
  lemma SearchSoundIff(es: seq<VarKey>, cut: nat)
    requires es != [] && AllOrdered(es) && cut >= Shared(UnionAll(es)) + 2
    ensures HalfSearchable(es, cut) <==> SearchSafe(es, cut)
  {
    var n := Cut(UnionAll(es), cut);
    if SearchSafe(es, cut) {
      forall i, k, query, s | 0 <= i < |es| && Covers(es[i], k) && Satisfies(k, query, s)
        ensures InnerConsistent(n, query, s)
      {
        if SafeAt(es, cut, i) {
          SafeCutIsSound(es, cut, i, k);
          CoveredIsConsistent(n, k, query, s);
        } else {
          assert SearchSafeAt(es, cut, i);
          LostButEntered(es, cut, i, k, query, s);
        }
      }
    } else {
      var i :| 0 <= i < |es| && !SearchSafeAt(es, cut, i);
      var k := LostKeyNotFound(es, cut, i);
      assert Satisfies(k, k, Equal);
    }
  }

  /** The two conditions differ: this half no longer covers the keys that extend 5,5,5 by more
      than 1, and yet is entered for every one of them. */
  lemma UnsafeYetSearchable()
    ensures var es := [VarKey([5], [5, 5, 5]), VarKey([5, 5, 5, 1], [5, 5, 5, 1])];
            AllOrdered(es) && !CutSafe(es, 4) && SearchSafe(es, 4)
  {
    var a, b := VarKey([5], [5, 5, 5]), VarKey([5, 5, 5, 1], [5, 5, 5, 1]);
    var es := [a, b];
    UnionOfTwo(a, b);
    LeReflexive(b.lower);
    PrefixLe(a.lower, a.upper);
    PrefixLe(a.lower, b.lower);
    PrefixLe(a.upper, b.upper);
    assert BinUnion(a, b) == VarKey([5], [5, 5, 5, 1]);
    var u := Cut(UnionAll(es), 4).upper;
    assert Shared(a) == 1 && a.upper < u && u[3] != 255;
    assert !SafeAt(es, 4, 0);
    LeafEntryIsClosed(b);
    assert SearchSafeAt(es, 4, 0) && SearchSafeAt(es, 4, 1);
  }
}
