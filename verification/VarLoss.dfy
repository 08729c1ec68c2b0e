/** An index of four byte strings that has lost one of them: what an unsafe split of an inner
    page does (contrib/btree_gist/btree_utils_var.c). */
module VarLoss {
  import opened Bags
  import opened GistIndex
  import opened VarBytes
  import opened VarKeys
  import opened VarSearch
  import opened VarIndex

  /** Two values more, the first one followed by a split of its page. */
  lemma TwoMore<K, V>(oc: OpClass<K, V>, before: seq<seq<Tree<K, V>>>, past: seq<Edit<K, V>>, held: multiset<V>,
                      b: V, c: V, d: V, pa: Tree<K, V>, kb: K, pc: Tree<K, V>)
      returns (pages: seq<seq<Tree<K, V>>>, edits: seq<Edit<K, V>>)
    requires LeadsTo(oc, before, past, [pa, Down(kb, [Leaf(b)])], held)
    requires oc.splits([Leaf(b), Leaf(c)], Down(kb, [Leaf(b)]), pc)
    ensures LeadsTo(oc, pages, edits, [pa, Down(oc.adjust(kb, d), [Leaf(b), Leaf(d)]), pc],
                    held + multiset{c} + multiset{d})
    ensures |edits| == |past| + 3
  {
    var pb, full := Down(kb, [Leaf(b)]), Down(oc.adjust(kb, c), [Leaf(b), Leaf(c)]);
    pages, edits := AddLeads(oc, before, past, [pa, pb], held, 1, c, full.page);
    assert [pa, pb][1 := full] == [pa, full];
    pages, edits := SplitLeads(oc, pages, edits, [pa, full], held + multiset{c}, Split([], 1, pb, pc));
    assert [pa, full][1 := pb] + [pc] == [pa, pb, pc];
    pages, edits := AddLeads(oc, pages, edits, [pa, pb, pc], held + multiset{c}, 1, d, [Leaf(b), Leaf(d)]);
    var pd := Down(oc.adjust(kb, d), [Leaf(b), Leaf(d)]);
    assert [pa, pb, pc][1 := pd] == [pa, pd, pc];
  }

  /** Four insertions, two splits of pages of two values, and a split of the root page. */
  lemma SevenEdits<K, V>(oc: OpClass<K, V>, a: V, b: V, c: V, d: V, pa: Tree<K, V>, kb: K, pc: Tree<K, V>,
                         l: Tree<K, V>, r: Tree<K, V>)
      returns (pages: seq<seq<Tree<K, V>>>, edits: seq<Edit<K, V>>)
    requires oc.splits([Leaf(a), Leaf(b)], pa, Down(kb, [Leaf(b)]))
    requires oc.splits([Leaf(b), Leaf(c)], Down(kb, [Leaf(b)]), pc)
    requires oc.splits([pa, Down(oc.adjust(kb, d), [Leaf(b), Leaf(d)]), pc], l, r)
    ensures LeadsTo(oc, pages, edits, [l, r], multiset{a, b} + multiset{c} + multiset{d}) && |edits| == 7
  {
    pages, edits := TwoAddedAndSplit(oc, a, b, pa, Down(kb, [Leaf(b)]));
    pages, edits := TwoMore(oc, pages, edits, multiset{a, b}, b, c, d, pa, kb, pc);
    pages, edits := SplitLeads(oc, pages, edits, [pa, Down(oc.adjust(kb, d), [Leaf(b), Leaf(d)]), pc],
                               multiset{a, b} + multiset{c} + multiset{d}, SplitRoot(l, r));
  }

  const LOW: Bytes := [0]
  const NEXT: Bytes := [1]
  const NEAR: Bytes := [5, 5, 1]
  const LOST: Bytes := [5, 5, 2]

  function Exact(k: Bytes): VarKey {
    VarKey(k, k)
  }

  function Single(k: Bytes): Entry {
    Down(Exact(k), [Leaf(k)])
  }

  lemma ExactCut(k: Bytes, cut: nat)
    requires cut >= |k|
    ensures Shared(Exact(k)) == |k| && Cut(Exact(k), cut) == Exact(k)
  {
    CommonPrefixIsLongest(k, k, k);
  }

  lemma Identity(n: nat)
    ensures Permutation(Upto(n), n)
  {
  }

  lemma PickAll<T>(es: seq<T>)
    ensures Pick(es, Upto(|es|)) == es
  {
  }

  /** Two keys in order are split into a page for each. */
  lemma TwoKeysSplit(a: Bytes, b: Bytes)
    requires Lt(a, b)
    ensures Splits([Leaf(a), Leaf(b)], Single(a), Single(b))
  {
    var page: seq<Entry> := [Leaf(a), Leaf(b)];
    var arr := [Exact(a), Exact(b)];
    assert Keys(page) == arr;
    Identity(2);
    PickAll(page);
    PickAll(arr);
    assert arr[0..1] == [Exact(a)] && arr[1..2] == [Exact(b)];
    var cut := SharedCut([Exact(a)], [Exact(b)]);
    ExactCut(a, |a|);
    ExactCut(b, |b|);
    ExactCut(a, cut);
    ExactCut(b, cut);
    assert Sorts(Keys(page), Upto(2));
    assert page[..1] == [Leaf(a)] && page[1..] == [Leaf(b)];
    assert SplitEntries(page, Upto(2)) == (Single(a), Single(b));
  }

  /** The page of NEXT once LOST is there too. */
  const WIDE := VarKey([1], [5, 5])
  const WIDENED: Entry := Down(WIDE, [Leaf(NEXT), Leaf(LOST)])

  lemma LostKeyIsCovered()
    ensures Adjusted(Exact(NEXT), LOST) == WIDE && Covers(WIDE, LOST)
  {
    UnionOfTwo(Exact(NEXT), Exact(LOST));
    assert Shared(VarKey(NEXT, LOST)) == 0;
  }

  /** The root page, its entries in key order, before the last split. */
  const ROOT: seq<Entry> := [Single(LOW), WIDENED, Single(NEAR)]
  const LEFT: Entry := Down(Exact(LOW), [Single(LOW)])
  const RIGHT: Entry := Down(VarKey([1], NEAR), [WIDENED, Single(NEAR)])

  lemma RootKeys()
    ensures Keys(ROOT) == [Exact(LOW), WIDE, Exact(NEAR)]
    ensures InSortOrder(Exact(LOW), WIDE) && InSortOrder(Exact(LOW), Exact(NEAR)) && InSortOrder(WIDE, Exact(NEAR))
  {
  }

  /** One byte in common on the left makes the cut 3, so all of NEAR is kept on the right. */
  lemma RootCut()
    ensures SharedCut([Exact(LOW)], [WIDE, Exact(NEAR)]) == 3
    ensures Cut(UnionAll([Exact(LOW)]), 3) == Exact(LOW)
    ensures Cut(UnionAll([WIDE, Exact(NEAR)]), 3) == VarKey([1], NEAR)
  {
    ExactCut(LOW, 3);
    UnionOfTwo(WIDE, Exact(NEAR));
    assert BinUnion(WIDE, Exact(NEAR)) == VarKey([1], NEAR);
    assert Shared(VarKey([1], NEAR)) == 0;
  }

  lemma RootSplits()
    ensures Splits(ROOT, LEFT, RIGHT)
  {
    var arr := [Exact(LOW), WIDE, Exact(NEAR)];
    RootKeys();
    RootCut();
    Identity(3);
    PickAll(ROOT);
    PickAll(arr);
    assert arr[0..1] == [Exact(LOW)] && arr[1..3] == [WIDE, Exact(NEAR)];
    assert ROOT[..1] == [Single(LOW)] && ROOT[1..] == [WIDENED, Single(NEAR)];
    assert Sorts(Keys(ROOT), Upto(3));
    assert SplitEntries(ROOT, Upto(3)) == (LEFT, RIGHT);
  }

  lemma LostKeyNotEntered()
    ensures Find([LEFT, RIGHT], LOST, Equal) == []
  {
    NothingEntered([LEFT, RIGHT], (key: VarKey) => InnerConsistent(key, LOST, Equal),
                   (k: Bytes) => LeafConsistent(VarKey(k, k), LOST, Equal));
  }

  lemma RightIsUnsafe()
    ensures !SafeSplit(LEFT, RIGHT)
  {
    var es := [WIDE, Exact(NEAR)];
    RootCut();
    assert Keys(LEFT.page) == [Exact(LOW)] && Keys(RIGHT.page) == es;
    assert Shared(WIDE) == 0 && Cut(UnionAll(es), 3).upper[2] == 1;
    assert !SafeAt(es, 3, 0);
  }

  lemma LosingLife() returns (pages: seq<seq<Entry>>, edits: seq<Edit<VarKey, Bytes>>)
    ensures LeadsTo(ByteClass(), pages, edits, [LEFT, RIGHT], multiset{LOW, NEXT} + multiset{NEAR} + multiset{LOST})
    ensures |edits| == 7
  {
    TwoKeysSplit(LOW, NEXT);
    TwoKeysSplit(NEXT, NEAR);
    LostKeyIsCovered();
    RootSplits();
    pages, edits := SevenEdits(ByteClass(), LOW, NEXT, NEAR, LOST, Single(LOW), Exact(NEXT), Single(NEAR), LEFT, RIGHT);
  }

  /** Seven edits, insertions going where they like, and a key that is in the index is not found
      by an equality search: the last split, of an inner page, is not safe. */
  lemma InnerSplitLosesKey() returns (pages: seq<seq<Entry>>, edits: seq<Edit<VarKey, Bytes>>)
    ensures Life(ByteClass(), pages, edits) && |edits| == 7 && LOST in Held(edits)
    ensures pages[7] == [LEFT, RIGHT] && Find(pages[7], LOST, Equal) == [] && !SafeSplit(LEFT, RIGHT)
  {
    pages, edits := LosingLife();
    LostKeyNotEntered();
    RightIsUnsafe();
  }
}
