/** The GiST index of byte strings with truncated keys (contrib/btree_gist/btree_utils_var.c)
    through its life. */
module VarIndex {
  import opened Bags
  import opened GistIndex
  import opened VarBytes
  import opened VarKeys
  import opened VarSearch

  type Entry = Tree<VarKey, Bytes>

  function KeyOf(t: Entry): VarKey {
    if t.Leaf? then VarKey(t.v, t.v) else t.key
  }

  function Keys(page: seq<Entry>): (ks: seq<VarKey>)
    ensures |ks| == |page|
  {
    seq(|page|, i requires 0 <= i < |page| => KeyOf(page[i]))
  }

  /** gistgetadjusted: the union of a downlink's key and the key of a new entry. */
  function Adjusted(key: VarKey, k: Bytes): VarKey {
    Union([key, VarKey(k, k)])
  }

  function Halves(page: seq<Entry>, order: seq<nat>): (seq<Entry>, seq<Entry>)
    requires Permutation(order, |page|)
  {
    var arr := Pick(page, order);
    (arr[..|page| / 2], arr[|page| / 2..])
  }

  /** The two downlinks that replace that of a page, by gbt_var_picksplit. */
  function SplitEntries(page: seq<Entry>, order: seq<nat>): (Entry, Entry)
    requires |page| >= 2 && Permutation(order, |page|)
  {
    var (left, right) := Halves(page, order);
    var (l, r) := SplitKeys(Pick(Keys(page), order));
    (Down(l, left), Down(r, right))
  }

  ghost predicate Splits(page: seq<Entry>, l: Entry, r: Entry) {
    |page| >= 2 && exists order :: Sorts(Keys(page), order) && (l, r) == SplitEntries(page, order)
  }

  /** The shared cut is safe for both halves. */
  predicate SafeSplit(l: Entry, r: Entry) {
    && l.Down? && r.Down? && l.page != [] && r.page != []
    && var cut := SharedCut(Keys(l.page), Keys(r.page));
       CutSafe(Keys(l.page), cut) && CutSafe(Keys(r.page), cut)
  }

  ghost function ByteClass(): OpClass<VarKey, Bytes> {
    OpClass(key => Ordered(key), (key, k) => Covers(key, k), (key, k) => Adjusted(key, k),
            (page, l, r) => Splits(page, l, r), (l, r) => SafeSplit(l, r))
  }

  // ----- Keys made over a sound page are sound

  lemma EntryCovers(t: Entry, k: Bytes)
    requires Sound(ByteClass(), t)
    ensures Ordered(KeyOf(t)) && (k in EntryBag(t) ==> Covers(KeyOf(t), k))
  {
    if t.Leaf? {
      LeReflexive(t.v);
    } else if k in EntryBag(t) {
      assert ByteClass().covers(t.key, k);
    }
  }

  lemma KeysOrdered(page: seq<Entry>)
    requires PageSound(ByteClass(), page)
    ensures AllOrdered(Keys(page))
  {
    forall i | 0 <= i < |page| ensures Ordered(KeyOf(page[i])) {
      EntryCovers(page[i], []);
    }
  }

  lemma {:induction false} CutIsSound(page: seq<Entry>, cut: nat)
    requires page != [] && PageSound(ByteClass(), page)
    requires cut >= Shared(UnionAll(Keys(page))) + 2 && CutSafe(Keys(page), cut)
    ensures Sound(ByteClass(), Down(Cut(UnionAll(Keys(page)), cut), page))
  {
    var es := Keys(page);
    var n := UnionAll(es);
    KeysOrdered(page);
    UnionAllWidens(es, 0);
    TakeMonotone(n.lower, n.upper, cut);
    forall k | k in Bag(page) ensures Covers(Cut(n, cut), k) {
      var i := EntryWith(page, k);
      EntryCovers(page[i], k);
      assert SafeAt(es, cut, i);
      SafeCutIsSound(es, cut, i, k);
    }
  }

  /** gbt_var_union over a page. */
  lemma UnionIsSound(page: seq<Entry>)
    requires page != [] && PageSound(ByteClass(), page)
    ensures Sound(ByteClass(), Down(Union(Keys(page)), page))
  {
    var es := Keys(page);
    KeysOrdered(page);
    OwnCutIsSafe(es);
    CutIsSound(page, Shared(UnionAll(es)) + 2);
  }

  lemma AdjustedCovers(key: VarKey, k: Bytes, x: Bytes)
    requires Ordered(key) && (Covers(key, x) || x == k)
    ensures Covers(Adjusted(key, k), x) && Ordered(Adjusted(key, k))
  {
    LeReflexive(k);
    var es := [key, VarKey(k, k)];
    UnionCovers(es, if Covers(key, x) then 0 else 1, x);
  }

  // ----- Splitting a page

  lemma LeafHalfIsSafe(half: seq<Entry>, cut: nat)
    requires half != [] && forall t :: t in half ==> t.Leaf?
    ensures CutSafe(Keys(half), cut)
  {
    forall i | 0 <= i < |half| ensures KeyOf(half[i]).lower == KeyOf(half[i]).upper {
      assert half[i] in half;
    }
    LeafCutIsSafe(Keys(half), cut);
  }

  /** A page of indexed keys is always split safely. */
  lemma LeafPageSplitsSafely(page: seq<Entry>, l: Entry, r: Entry)
    requires Splits(page, l, r) && forall t :: t in page ==> t.Leaf?
    ensures SafeSplit(l, r)
  {
    SplitHoldsPage(page, l, r);
    forall t | t in l.page + r.page ensures t.Leaf? {
      assert t in multiset(l.page + r.page);
    }
    var cut := SharedCut(Keys(l.page), Keys(r.page));
    LeafHalfIsSafe(l.page, cut);
    LeafHalfIsSafe(r.page, cut);
  }

  lemma SplitKeysOfHalves(page: seq<Entry>, order: seq<nat>)
    requires |page| >= 2 && Permutation(order, |page|)
    ensures var (left, right) := Halves(page, order);
            var cut := SharedCut(Keys(left), Keys(right));
            SplitEntries(page, order) ==
            (Down(Cut(UnionAll(Keys(left)), cut), left), Down(Cut(UnionAll(Keys(right)), cut), right))
  {
    var (left, right) := Halves(page, order);
    var arr, half := Pick(Keys(page), order), |page| / 2;
    assert Keys(left) == arr[0..half] && Keys(right) == arr[half..|arr|];
  }

  lemma {:induction false} SortedSplitIsSound(page: seq<Entry>, order: seq<nat>)
    requires PageSound(ByteClass(), page) && |page| >= 2 && Permutation(order, |page|)
    requires SafeSplit(SplitEntries(page, order).0, SplitEntries(page, order).1)
    ensures Sound(ByteClass(), SplitEntries(page, order).0) && Sound(ByteClass(), SplitEntries(page, order).1)
  {
    var (left, right) := Halves(page, order);
    SplitKeysOfHalves(page, order);
    var cut := SharedCut(Keys(left), Keys(right));
    CutIsSound(left, cut);
    CutIsSound(right, cut);
  }

  /** Both downlinks of a safe split cover the keys of their halves. */
  lemma SplitIsSound(page: seq<Entry>, l: Entry, r: Entry)
    requires PageSound(ByteClass(), page) && Splits(page, l, r) && SafeSplit(l, r)
    ensures Sound(ByteClass(), l) && Sound(ByteClass(), r)
  {
    var order :| Sorts(Keys(page), order) && (l, r) == SplitEntries(page, order);
    SortedSplitIsSound(page, order);
  }

  lemma HalvesHoldPage(page: seq<Entry>, order: seq<nat>)
    requires |page| >= 2 && Permutation(order, |page|)
    ensures var (left, right) := Halves(page, order);
            left != [] && right != [] && multiset(left + right) == multiset(page)
  {
    var (left, right) := Halves(page, order);
    PermutedBag(page, order);
    assert left + right == Pick(page, order);
  }

  lemma SplitHoldsPage(page: seq<Entry>, l: Entry, r: Entry)
    requires Splits(page, l, r)
    ensures l.Down? && r.Down? && l.page != [] && r.page != [] && multiset(l.page + r.page) == multiset(page)
  {
    var order :| Sorts(Keys(page), order) && (l, r) == SplitEntries(page, order);
    HalvesHoldPage(page, order);
  }

  // ----- Whole lives

  lemma ByteClassIsLawful()
    ensures Lawful(ByteClass())
  {
    var oc := ByteClass();
    forall key, k | oc.ok(key) ensures oc.ok(oc.adjust(key, k)) && oc.covers(oc.adjust(key, k), k) {
      AdjustedCovers(key, k, k);
    }
    forall key, k, x | oc.ok(key) && oc.covers(key, x) ensures oc.covers(oc.adjust(key, k), x) {
      AdjustedCovers(key, k, x);
    }
    forall page, l, r | oc.splits(page, l, r) ensures l.Down? && r.Down? && multiset(l.page + r.page) == multiset(page) {
      SplitHoldsPage(page, l, r);
    }
    forall page, l, r | oc.splits(page, l, r) && oc.safe(l, r) && PageSound(oc, page)
      ensures Sound(oc, l) && Sound(oc, r)
    {
      SplitIsSound(page, l, r);
    }
  }

  function Find(page: seq<Entry>, query: Bytes, s: Strategy): seq<Bytes> {
    SearchOf(page, (key: VarKey) => InnerConsistent(key, query, s), (k: Bytes) => LeafConsistent(VarKey(k, k), query, s))
  }

  /** At every moment of every life, for every query and strategy, a search returns no key that
      does not satisfy the query and none more often than it is in the index. It returns every
      one that does, as often as it is there, if each split so far was safe; and those of leaf
      pages always are. */
  lemma SearchFindsExactly(pages: seq<seq<Entry>>, edits: seq<Edit<VarKey, Bytes>>, n: nat,
                           query: Bytes, s: Strategy, k: Bytes)
    requires Life(ByteClass(), pages, edits) && n <= |edits|
    ensures multiset(Find(pages[n], query, s))[k] <= if Satisfies(k, query, s) then Held(edits[..n])[k] else 0
    ensures SplitsSafely(ByteClass(), edits, n) ==>
              multiset(Find(pages[n], query, s))[k] == if Satisfies(k, query, s) then Held(edits[..n])[k] else 0
  {
    var oc := ByteClass();
    var inner := (key: VarKey) => InnerConsistent(key, query, s);
    var leaf := (x: Bytes) => LeafConsistent(VarKey(x, x), query, s);
    ByteClassIsLawful();
    LeafIsExact(k, query, s);
    SearchFindsOnly(oc, pages, edits, n, inner, leaf, k);
    if SplitsSafely(oc, edits, n) {
      forall key, x | oc.ok(key) && oc.covers(key, x) && x in Held(edits[..n]) && leaf(x) ensures inner(key) {
        LeafIsExact(x, query, s);
        CoveredIsConsistent(key, x, query, s);
      }
      GistIndex.SearchFindsExactly(oc, pages, edits, n, inner, leaf, k);
    }
  }
}
