/** A GiST index of one column through its life: insertions that adjust the keys on their way
    down, deletions, page splits (src/backend/access/gist/gist.c). For every operator class
    that keeps a few laws, whatever is in the index and matches, and nothing else, is found. */
module GistIndex {
  import opened Bags

  /** An entry of a page: an indexed value, or a downlink with its key. */
  datatype Tree<K, V> =
    | Leaf(v: V)
    | Down(key: K, page: seq<Tree<K, V>>)

  /** What an operator class contributes. `covers`: the key stands for the value. `adjust`: the
      union of a key and a new value. `splits`: picksplit may make these two downlinks of a
      page. `safe`: the two keys still stand for all that is below them. */
  datatype OpClass<!K, !V> = OpClass(
    ok: K -> bool,
    covers: (K, V) -> bool,
    adjust: (K, V) -> K,
    splits: (seq<Tree<K, V>>, Tree<K, V>, Tree<K, V>) -> bool,
    safe: (Tree<K, V>, Tree<K, V>) -> bool)

  // ----- What a page holds

  /** All indexed values, left to right. */
  function Leaves<K, V>(t: Tree<K, V>): seq<V> {
    match t
    case Leaf(v) => [v]
    case Down(_, page) => LeavesOf(page)
  }

  function LeavesOf<K, V>(page: seq<Tree<K, V>>): seq<V> {
    if page == [] then [] else Leaves(page[0]) + LeavesOf(page[1..])
  }

  /** The values below a page, as often as they are there. */
  ghost function Bag<K, V>(page: seq<Tree<K, V>>): multiset<V> {
    if page == [] then multiset{} else EntryBag(page[0]) + Bag(page[1..])
  }

  ghost function EntryBag<K, V>(t: Tree<K, V>): multiset<V> {
    match t
    case Leaf(v) => multiset{v}
    case Down(_, page) => Bag(page)
  }

  lemma {:induction false} BagIsLeaves<K, V>(page: seq<Tree<K, V>>)
    ensures Bag(page) == multiset(LeavesOf(page))
    decreases page, 0
  {
    if page != [] {
      EntryBagIsLeaves(page[0]);
      BagIsLeaves(page[1..]);
    }
  }

  lemma {:induction false} EntryBagIsLeaves<K, V>(t: Tree<K, V>)
    ensures EntryBag(t) == multiset(Leaves(t))
    decreases t, 1
  {
    if t.Down? {
      BagIsLeaves(t.page);
    }
  }

  lemma {:induction false} EntryWith<K, V>(page: seq<Tree<K, V>>, v: V) returns (i: nat)
    requires v in Bag(page)
    ensures i < |page| && v in EntryBag(page[i])
    decreases |page|
  {
    if v in EntryBag(page[0]) {
      i := 0;
    } else {
      i := EntryWith(page[1..], v);
      i := i + 1;
    }
  }

  lemma {:induction false} BagStep<K, V>(a: seq<Tree<K, V>>, b: seq<Tree<K, V>>)
    requires a != []
    ensures Bag(a + b) == EntryBag(a[0]) + Bag(a[1..] + b)
  {
    assert (a + b)[0] == a[0] && (a + b)[1..] == a[1..] + b;
  }

  lemma BagAssoc<V>(x: multiset<V>, y: multiset<V>, z: multiset<V>)
    ensures x + (y + z) == x + y + z
  {
  }

  lemma {:induction false} BagJoin<K, V>(a: seq<Tree<K, V>>, b: seq<Tree<K, V>>)
    ensures Bag(a + b) == Bag(a) + Bag(b)
    decreases |a|
  {
    if a == [] {
      assert a + b == b;
    } else {
      BagJoin(a[1..], b);
      BagStep(a, b);
      BagAssoc(EntryBag(a[0]), Bag(a[1..]), Bag(b));
    }
  }

  lemma {:induction false} BagOne<K, V>(t: Tree<K, V>)
    ensures Bag([t]) == EntryBag(t)
  {
    assert [t][1..] == [];
  }

  lemma {:induction false} BagAt<K, V>(page: seq<Tree<K, V>>, i: nat)
    requires i < |page|
    ensures Bag(page) == Bag(page[..i] + page[i + 1..]) + EntryBag(page[i])
  {
    BagJoin(page[..i], page[i..]);
    BagJoin(page[..i], page[i + 1..]);
    assert page == page[..i] + page[i..] && page[i..][1..] == page[i + 1..];
  }

  lemma {:induction false} BagReplace<K, V>(page: seq<Tree<K, V>>, i: nat, t: Tree<K, V>)
    requires i < |page|
    ensures Bag(page[i := t]) + EntryBag(page[i]) == Bag(page) + EntryBag(t)
  {
    var p := page[i := t];
    BagAt(page, i);
    BagAt(p, i);
    assert p[..i] + p[i + 1..] == page[..i] + page[i + 1..];
  }

  lemma {:induction false} BagOfBag<K, V>(a: seq<Tree<K, V>>, b: seq<Tree<K, V>>)
    requires multiset(a) == multiset(b)
    ensures Bag(a) == Bag(b)
    decreases |a|
  {
    if a == [] {
      assert |multiset(b)| == 0;
    } else {
      assert a[0] in multiset(b);
      var j :| 0 <= j < |b| && b[j] == a[0];
      SameRest(a, b, j);
      BagOfBag(a[1..], b[..j] + b[j + 1..]);
      BagAt(b, j);
    }
  }

  // ----- Laws

  /** Every downlink's key, at every depth, is well formed and covers the values below it. */
  ghost predicate Sound<K, V>(oc: OpClass<K, V>, t: Tree<K, V>) {
    t.Down? ==>
      && oc.ok(t.key) && (forall v :: v in Bag(t.page) ==> oc.covers(t.key, v))
      && (forall c :: c in t.page ==> Sound(oc, c))
  }

  ghost predicate PageSound<K, V>(oc: OpClass<K, V>, page: seq<Tree<K, V>>) {
    forall c :: c in page ==> Sound(oc, c)
  }

  /** An adjusted key covers what it covered and the new value. */
  ghost predicate AdjustCovers<K(!new), V(!new)>(oc: OpClass<K, V>) {
    && (forall key, v :: oc.ok(key) ==> oc.ok(oc.adjust(key, v)) && oc.covers(oc.adjust(key, v), v))
    && (forall key, v, x :: oc.ok(key) && oc.covers(key, x) ==> oc.covers(oc.adjust(key, v), x))
  }

  /** A split distributes the entries of the page. */
  ghost predicate SplitDivides<K(!new), V(!new)>(oc: OpClass<K, V>) {
    forall page, l, r :: oc.splits(page, l, r) ==> l.Down? && r.Down? && multiset(l.page + r.page) == multiset(page)
  }

  /** A safe split of a sound page makes sound downlinks. */
  ghost predicate SafeSplitCovers<K(!new), V(!new)>(oc: OpClass<K, V>) {
    forall page, l, r :: oc.splits(page, l, r) && oc.safe(l, r) && PageSound(oc, page) ==> Sound(oc, l) && Sound(oc, r)
  }

  ghost predicate Lawful<K(!new), V(!new)>(oc: OpClass<K, V>) {
    AdjustCovers(oc) && SplitDivides(oc) && SafeSplitCovers(oc)
  }

  lemma {:induction false} SplitKeepsBag<K(!new), V(!new)>(oc: OpClass<K, V>, page: seq<Tree<K, V>>,
                                                           l: Tree<K, V>, r: Tree<K, V>)
    requires SplitDivides(oc) && oc.splits(page, l, r)
    ensures EntryBag(l) + EntryBag(r) == Bag(page)
  {
    BagOfBag(l.page + r.page, page);
    BagJoin(l.page, r.page);
  }

  // ----- Edits

  /** The downlinks from the root page to some page. */
  predicate ValidPath<K, V>(page: seq<Tree<K, V>>, path: seq<nat>)
    decreases |path|
  {
    path != [] ==> path[0] < |page| && page[path[0]].Down? && ValidPath(page[path[0]].page, path[1..])
  }

  function PageAt<K, V>(page: seq<Tree<K, V>>, path: seq<nat>): seq<Tree<K, V>>
    requires ValidPath(page, path)
    decreases |path|
  {
    if path == [] then page else PageAt(page[path[0]].page, path[1..])
  }

  datatype Edit<K, V> =
    | Add(path: seq<nat>, v: V)
    | Delete(path: seq<nat>, i: nat, v: V)
    | Unlink(path: seq<nat>, i: nat)
    | Split(path: seq<nat>, i: nat, l: Tree<K, V>, r: Tree<K, V>)
    | SplitRoot(l: Tree<K, V>, r: Tree<K, V>)
  {
    predicate Splits() {
      Split? || SplitRoot?
    }
  }

  /** An insertion goes to any page, a deletion takes a value off its page, an emptied page
      loses its downlink, and any page may be split. */
  ghost predicate Allowed<K, V>(oc: OpClass<K, V>, page: seq<Tree<K, V>>, e: Edit<K, V>) {
    match e
    case Add(path, _) => ValidPath(page, path)
    case Delete(path, i, v) => ValidPath(page, path) && i < |PageAt(page, path)| && PageAt(page, path)[i] == Leaf(v)
    case Unlink(path, i) =>
      ValidPath(page, path) && i < |PageAt(page, path)| && EntryBag(PageAt(page, path)[i]) == multiset{}
    case Split(path, i, l, r) =>
      && ValidPath(page, path) && i < |PageAt(page, path)|
      && PageAt(page, path)[i].Down? && oc.splits(PageAt(page, path)[i].page, l, r)
    case SplitRoot(l, r) => oc.splits(page, l, r)
  }

  /** What an edit does to the page it is made on. */
  ghost function Here<K, V>(oc: OpClass<K, V>, page: seq<Tree<K, V>>, e: Edit<K, V>): seq<Tree<K, V>>
    requires !e.SplitRoot? ==> e.path == []
    requires Allowed(oc, page, e)
  {
    match e
    case Add(_, v) => page + [Leaf(v)]
    case Delete(_, i, _) => page[..i] + page[i + 1..]
    case Unlink(_, i) => page[..i] + page[i + 1..]
    case Split(_, i, l, r) => page[i := l] + [r]
    case SplitRoot(l, r) => [l, r]
  }

  /** An insertion adjusts the keys it passes on its way to that page. */
  ghost function Passed<K, V>(oc: OpClass<K, V>, key: K, e: Edit<K, V>): K {
    if e.Add? then oc.adjust(key, e.v) else key
  }

  ghost function Apply<K, V>(oc: OpClass<K, V>, page: seq<Tree<K, V>>, e: Edit<K, V>): seq<Tree<K, V>>
    requires Allowed(oc, page, e)
    decreases if e.SplitRoot? then 0 else |e.path|
  {
    if e.SplitRoot? || e.path == [] then Here(oc, page, e)
    else
      var i, d := e.path[0], page[e.path[0]];
      page[i := Down(Passed(oc, d.key, e), Apply(oc, d.page, e.(path := e.path[1..])))]
  }

  ghost function Gain<K, V>(e: Edit<K, V>): multiset<V> {
    if e.Add? then multiset{e.v} else multiset{}
  }

  ghost function Loss<K, V>(e: Edit<K, V>): multiset<V> {
    if e.Delete? then multiset{e.v} else multiset{}
  }

  // ----- Every edit accounts for its values

  lemma {:induction false} AddChanges<K, V>(page: seq<Tree<K, V>>, v: V)
    ensures Bag(page + [Leaf(v)]) == Bag(page) + multiset{v}
  {
    BagJoin(page, [Leaf(v)]);
    BagOne<K, V>(Leaf(v));
  }

  lemma Balance<V>(a: multiset<V>, d: multiset<V>, p: multiset<V>, l: multiset<V>, r: multiset<V>)
    requires a + d == p + l && l + r == d
    ensures a + r == p
  {
    assert a + (l + r) == p + l;
    assert (a + (l + r)) - l == a + r;
    assert (p + l) - l == p;
  }

  lemma {:induction false} SplitBelowChanges<K(!new), V(!new)>(oc: OpClass<K, V>, page: seq<Tree<K, V>>, i: nat,
                                                               l: Tree<K, V>, r: Tree<K, V>)
    requires SplitDivides(oc) && i < |page| && page[i].Down? && oc.splits(page[i].page, l, r)
    ensures Bag(page[i := l] + [r]) == Bag(page)
  {
    SplitKeepsBag(oc, page[i].page, l, r);
    BagReplace(page, i, l);
    BagJoin(page[i := l], [r]);
    BagOne(r);
    Balance(Bag(page[i := l]), EntryBag(page[i]), Bag(page), EntryBag(l), EntryBag(r));
  }

  lemma {:induction false} SplitRootChanges<K(!new), V(!new)>(oc: OpClass<K, V>, page: seq<Tree<K, V>>,
                                                              l: Tree<K, V>, r: Tree<K, V>)
    requires SplitDivides(oc) && oc.splits(page, l, r)
    ensures Bag([l, r]) == Bag(page)
  {
    SplitKeepsBag(oc, page, l, r);
    BagOne(r);
    assert [l, r][1..] == [r];
  }

  lemma {:induction false} DropChanges<K, V>(page: seq<Tree<K, V>>, i: nat, loss: multiset<V>)
    requires i < |page| && EntryBag(page[i]) == loss
    ensures Bag(page[..i] + page[i + 1..]) + loss == Bag(page)
  {
    BagAt(page, i);
  }

  lemma {:induction false} HereChanges<K(!new), V(!new)>(oc: OpClass<K, V>, page: seq<Tree<K, V>>, e: Edit<K, V>)
    requires SplitDivides(oc) && (!e.SplitRoot? ==> e.path == []) && Allowed(oc, page, e)
    ensures Bag(Here(oc, page, e)) + Loss(e) == Bag(page) + Gain(e)
  {
    match e
    case Add(_, v) => AddChanges(page, v);
    case Delete(_, i, v) => DropChanges(page, i, multiset{v});
    case Unlink(_, i) => DropChanges(page, i, multiset{});
    case Split(_, i, l, r) => SplitBelowChanges(oc, page, i, l, r);
    case SplitRoot(l, r) => SplitRootChanges(oc, page, l, r);
  }

  lemma Carry<V>(a: multiset<V>, d: multiset<V>, p: multiset<V>, t: multiset<V>, loss: multiset<V>, gain: multiset<V>)
    requires a + d == p + t && t + loss == d + gain
    ensures a + loss == p + gain
  {
    assert (a + d) + loss == (p + t) + loss == p + (d + gain);
    assert ((a + d) + loss) - d == a + loss;
    assert (p + (d + gain)) - d == p + gain;
  }

  /** Whatever split is made, an edit adds and removes just its own value. */
  lemma {:induction false} EditAccounts<K(!new), V(!new)>(oc: OpClass<K, V>, page: seq<Tree<K, V>>, e: Edit<K, V>)
    requires SplitDivides(oc) && Allowed(oc, page, e)
    ensures Bag(Apply(oc, page, e)) + Loss(e) == Bag(page) + Gain(e)
    decreases if e.SplitRoot? then 0 else |e.path|
  {
    if e.SplitRoot? || e.path == [] {
      HereChanges(oc, page, e);
    } else {
      var i, d := e.path[0], page[e.path[0]];
      var rest := e.(path := e.path[1..]);
      EditAccounts(oc, d.page, rest);
      var below := Apply(oc, d.page, rest);
      var t := Down(Passed(oc, d.key, e), below);
      BagReplace(page, i, t);
      Carry(Bag(page[i := t]), Bag(d.page), Bag(page), Bag(below), Loss(e), Gain(e));
    }
  }

  // ----- Every edit keeps the keys covering, unless it is an unsafe split

  lemma {:induction false} HereSound<K(!new), V(!new)>(oc: OpClass<K, V>, page: seq<Tree<K, V>>, e: Edit<K, V>)
    requires SafeSplitCovers(oc) && (!e.SplitRoot? ==> e.path == []) && Allowed(oc, page, e) && PageSound(oc, page)
    requires e.Splits() ==> oc.safe(e.l, e.r)
    ensures PageSound(oc, Here(oc, page, e))
  {
    var after := Here(oc, page, e);
    if e.Split? {
      assert Sound(oc, page[e.i]);
      assert PageSound(oc, page[e.i].page);
    }
    forall c | c in after ensures Sound(oc, c) {
      assert c in page || (e.Add? && c == Leaf(e.v)) || (e.Splits() && (c == e.l || c == e.r));
    }
  }

  lemma PassedCovers<K(!new), V(!new)>(oc: OpClass<K, V>, key: K, e: Edit<K, V>, x: V)
    requires AdjustCovers(oc) && oc.ok(key) && (oc.covers(key, x) || (e.Add? && x == e.v))
    ensures oc.ok(Passed(oc, key, e)) && oc.covers(Passed(oc, key, e), x)
  {
  }

  lemma {:induction false} DownStaysSound<K(!new), V(!new)>(oc: OpClass<K, V>, d: Tree<K, V>, e: Edit<K, V>,
                                                            below: seq<Tree<K, V>>)
    requires AdjustCovers(oc) && d.Down? && Sound(oc, d) && PageSound(oc, below)
    requires Bag(below) + Loss(e) == Bag(d.page) + Gain(e)
    ensures Sound(oc, Down(Passed(oc, d.key, e), below))
  {
    var key := Passed(oc, d.key, e);
    if e.Add? {
      PassedCovers(oc, d.key, e, e.v);
    }
    forall v | v in Bag(below) ensures oc.covers(key, v) {
      assert v in Bag(below) + Loss(e) && v in Bag(d.page) + Gain(e);
      assert v in Bag(d.page) ==> oc.covers(d.key, v);
      PassedCovers(oc, d.key, e, v);
    }
  }

  lemma {:induction false} ReplacedSound<K, V>(oc: OpClass<K, V>, page: seq<Tree<K, V>>, i: nat, t: Tree<K, V>)
    requires PageSound(oc, page) && i < |page| && Sound(oc, t)
    ensures PageSound(oc, page[i := t])
  {
  }

  /** An edit keeps every downlink's key covering, unless it is an unsafe split. */
  lemma {:induction false} EditKeepsSound<K(!new), V(!new)>(oc: OpClass<K, V>, page: seq<Tree<K, V>>, e: Edit<K, V>)
    requires Lawful(oc) && Allowed(oc, page, e) && PageSound(oc, page)
    requires e.Splits() ==> oc.safe(e.l, e.r)
    ensures PageSound(oc, Apply(oc, page, e))
    decreases if e.SplitRoot? then 0 else |e.path|
  {
    if e.SplitRoot? || e.path == [] {
      HereSound(oc, page, e);
    } else {
      var i, d := e.path[0], page[e.path[0]];
      var rest := e.(path := e.path[1..]);
      assert Sound(oc, d);
      EditKeepsSound(oc, d.page, rest);
      EditAccounts(oc, d.page, rest);
      var below := Apply(oc, d.page, rest);
      DownStaysSound(oc, d, e, below);
      ReplacedSound(oc, page, i, Down(Passed(oc, d.key, e), below));
    }
  }

  // ----- Whole lives

  ghost predicate StepAt<K, V>(oc: OpClass<K, V>, pages: seq<seq<Tree<K, V>>>, edits: seq<Edit<K, V>>, i: nat)
    requires i < |edits| && |pages| == |edits| + 1
  {
    Allowed(oc, pages[i], edits[i]) && pages[i + 1] == Apply(oc, pages[i], edits[i])
  }

  /** The root pages of an index that starts empty and undergoes these edits. */
  ghost predicate Life<K, V>(oc: OpClass<K, V>, pages: seq<seq<Tree<K, V>>>, edits: seq<Edit<K, V>>) {
    && |pages| == |edits| + 1 && pages[0] == []
    && forall i: nat :: i < |edits| ==> StepAt(oc, pages, edits, i)
  }

  ghost predicate SplitsSafely<K, V>(oc: OpClass<K, V>, edits: seq<Edit<K, V>>, n: nat)
    requires n <= |edits|
  {
    forall i :: 0 <= i < n && edits[i].Splits() ==> oc.safe(edits[i].l, edits[i].r)
  }

  /** The values added and not deleted by these edits. */
  ghost function Held<K, V>(edits: seq<Edit<K, V>>): multiset<V> {
    if edits == [] then multiset{}
    else
      var last := edits[|edits| - 1];
      Held(edits[..|edits| - 1]) + Gain(last) - Loss(last)
  }

  lemma Settle<V>(x: multiset<V>, loss: multiset<V>, y: multiset<V>, gain: multiset<V>)
    requires x + loss == y + gain
    ensures x == y + gain - loss
  {
    assert (x + loss) - loss == x;
  }

  /** At every moment of every life the index holds what was added and not deleted. */
  lemma {:induction false} LifeAccounts<K(!new), V(!new)>(oc: OpClass<K, V>, pages: seq<seq<Tree<K, V>>>,
                                                          edits: seq<Edit<K, V>>, n: nat)
    requires Lawful(oc) && Life(oc, pages, edits) && n <= |edits|
    ensures Bag(pages[n]) == Held(edits[..n])
    decreases n
  {
    if n > 0 {
      var m: nat := n - 1;
      assert edits[..n][..m] == edits[..m];
      LifeAccounts(oc, pages, edits, m);
      assert StepAt(oc, pages, edits, m);
      EditAccounts(oc, pages[m], edits[m]);
      Settle(Bag(pages[n]), Loss(edits[m]), Bag(pages[m]), Gain(edits[m]));
    }
  }

  /** While no split was unsafe, every downlink's key covers the values below it. */
  lemma {:induction false} LifeIsSound<K(!new), V(!new)>(oc: OpClass<K, V>, pages: seq<seq<Tree<K, V>>>,
                                                         edits: seq<Edit<K, V>>, n: nat)
    requires Lawful(oc) && Life(oc, pages, edits) && n <= |edits| && SplitsSafely(oc, edits, n)
    ensures PageSound(oc, pages[n])
    decreases n
  {
    if n > 0 {
      var m: nat := n - 1;
      LifeIsSound(oc, pages, edits, m);
      assert StepAt(oc, pages, edits, m);
      EditKeepsSound(oc, pages[m], edits[m]);
    }
  }

  /** So it is on every page below the root. */
  lemma {:induction false} SoundBelow<K, V>(oc: OpClass<K, V>, page: seq<Tree<K, V>>, path: seq<nat>)
    requires PageSound(oc, page) && ValidPath(page, path)
    ensures PageSound(oc, PageAt(page, path))
    decreases |path|
  {
    if path != [] {
      assert Sound(oc, page[path[0]]);
      SoundBelow(oc, page[path[0]].page, path[1..]);
    }
  }

  // ----- Searches

  /** A search that only enters downlinks whose keys pass. */
  function Search<K, V>(t: Tree<K, V>, inner: K -> bool, leaf: V -> bool): seq<V> {
    match t
    case Leaf(v) => if leaf(v) then [v] else []
    case Down(key, page) => if inner(key) then SearchOf(page, inner, leaf) else []
  }

  function SearchOf<K, V>(page: seq<Tree<K, V>>, inner: K -> bool, leaf: V -> bool): seq<V> {
    if page == [] then [] else Search(page[0], inner, leaf) + SearchOf(page[1..], inner, leaf)
  }

  /** The plain filter. */
  function Matching<V>(vs: seq<V>, leaf: V -> bool): seq<V> {
    if vs == [] then []
    else if leaf(vs[0]) then [vs[0]] + Matching(vs[1..], leaf)
    else Matching(vs[1..], leaf)
  }

  /** A key that covers a match among these values passes. */
  ghost predicate Admits<K(!new), V(!new)>(oc: OpClass<K, V>, inner: K -> bool, leaf: V -> bool, vs: multiset<V>) {
    forall key, v :: oc.ok(key) && oc.covers(key, v) && v in vs && leaf(v) ==> inner(key)
  }

  lemma MatchingStep<V>(a: seq<V>, b: seq<V>, leaf: V -> bool)
    requires a != []
    ensures Matching(a + b, leaf) ==
            if leaf(a[0]) then [a[0]] + Matching(a[1..] + b, leaf) else Matching(a[1..] + b, leaf)
  {
    assert (a + b)[0] == a[0] && (a + b)[1..] == a[1..] + b;
  }

  lemma Assoc<V>(a: seq<V>, b: seq<V>, c: seq<V>)
    ensures a + (b + c) == a + b + c
  {
  }

  lemma {:induction false} MatchingJoin<V>(a: seq<V>, b: seq<V>, leaf: V -> bool)
    ensures Matching(a + b, leaf) == Matching(a, leaf) + Matching(b, leaf)
  {
    if a == [] {
      assert a + b == b;
    } else {
      MatchingJoin(a[1..], b, leaf);
      MatchingStep(a, b, leaf);
      Assoc([a[0]], Matching(a[1..], leaf), Matching(b, leaf));
    }
  }

  lemma {:induction false} NothingMatches<V>(vs: seq<V>, leaf: V -> bool)
    requires forall v :: v in vs ==> !leaf(v)
    ensures Matching(vs, leaf) == []
  {
    if vs != [] {
      NothingMatches(vs[1..], leaf);
    }
  }

  /** In a sound tree the pruned search returns exactly the matching values, in order. */
  lemma {:induction false} SearchIsFilter<K(!new), V(!new)>(oc: OpClass<K, V>, t: Tree<K, V>,
                                                            inner: K -> bool, leaf: V -> bool, vs: multiset<V>)
    requires Sound(oc, t) && Admits(oc, inner, leaf, vs) && EntryBag(t) <= vs
    ensures Search(t, inner, leaf) == Matching(Leaves(t), leaf)
    decreases t, 1
  {
    match t
    case Leaf(v) =>
      assert Matching([v][1..], leaf) == [];
    case Down(key, page) =>
      if inner(key) {
        SearchOfIsFilter(oc, page, inner, leaf, vs);
      } else {
        BagIsLeaves(page);
        forall v | v in LeavesOf(page) ensures !leaf(v) {
          assert v in Bag(page) && v in vs;
        }
        NothingMatches(LeavesOf(page), leaf);
      }
  }

  lemma {:induction false} SearchOfIsFilter<K(!new), V(!new)>(oc: OpClass<K, V>, page: seq<Tree<K, V>>,
                                                              inner: K -> bool, leaf: V -> bool, vs: multiset<V>)
    requires PageSound(oc, page) && Admits(oc, inner, leaf, vs) && Bag(page) <= vs
    ensures SearchOf(page, inner, leaf) == Matching(LeavesOf(page), leaf)
    decreases page, 0
  {
    if page != [] {
      SearchIsFilter(oc, page[0], inner, leaf, vs);
      SearchOfIsFilter(oc, page[1..], inner, leaf, vs);
      MatchingJoin(Leaves(page[0]), LeavesOf(page[1..]), leaf);
    }
  }

  lemma {:induction false} MatchingCounts<V>(vs: seq<V>, leaf: V -> bool, v: V)
    ensures multiset(Matching(vs, leaf))[v] == if leaf(v) then multiset(vs)[v] else 0
  {
    if vs != [] {
      MatchingCounts(vs[1..], leaf, v);
      assert vs == [vs[0]] + vs[1..];
    }
  }

  lemma {:induction false} NothingEntered<K, V>(page: seq<Tree<K, V>>, inner: K -> bool, leaf: V -> bool)
    requires forall i :: 0 <= i < |page| ==> page[i].Down? && !inner(page[i].key)
    ensures SearchOf(page, inner, leaf) == []
  {
    if page != [] {
      NothingEntered(page[1..], inner, leaf);
    }
  }

  /** In any tree, sound or not, the search returns nothing but matching values, none more
      often than it is there. */
  lemma {:induction false} SearchIsWithin<K, V>(t: Tree<K, V>, inner: K -> bool, leaf: V -> bool, v: V)
    ensures multiset(Search(t, inner, leaf))[v] <= if leaf(v) then EntryBag(t)[v] else 0
    decreases t, 1
  {
    if t.Down? {
      SearchOfIsWithin(t.page, inner, leaf, v);
    }
  }

  lemma {:induction false} SearchOfIsWithin<K, V>(page: seq<Tree<K, V>>, inner: K -> bool, leaf: V -> bool, v: V)
    ensures multiset(SearchOf(page, inner, leaf))[v] <= if leaf(v) then Bag(page)[v] else 0
    decreases page, 0
  {
    if page != [] {
      SearchIsWithin(page[0], inner, leaf, v);
      SearchOfIsWithin(page[1..], inner, leaf, v);
    }
  }

  /** At every moment of every life a search returns nothing that does not match, and nothing
      more often than it is in the index. */
  lemma SearchFindsOnly<K(!new), V(!new)>(oc: OpClass<K, V>, pages: seq<seq<Tree<K, V>>>, edits: seq<Edit<K, V>>, n: nat,
                                          inner: K -> bool, leaf: V -> bool, v: V)
    requires Lawful(oc) && Life(oc, pages, edits) && n <= |edits|
    ensures multiset(SearchOf(pages[n], inner, leaf))[v] <= if leaf(v) then Held(edits[..n])[v] else 0
  {
    LifeAccounts(oc, pages, edits, n);
    SearchOfIsWithin(pages[n], inner, leaf, v);
  }

  /** If no split was unsafe, and no key that covers a match is rejected, a search returns each
      value that is in the index and matches, as often as it is there, and nothing else. */
  lemma SearchFindsExactly<K(!new), V(!new)>(oc: OpClass<K, V>, pages: seq<seq<Tree<K, V>>>, edits: seq<Edit<K, V>>,
                                             n: nat, inner: K -> bool, leaf: V -> bool, v: V)
    requires Lawful(oc) && Life(oc, pages, edits) && n <= |edits| && SplitsSafely(oc, edits, n)
    requires Admits(oc, inner, leaf, Held(edits[..n]))
    ensures multiset(SearchOf(pages[n], inner, leaf))[v] == if leaf(v) then Held(edits[..n])[v] else 0
  {
    LifeAccounts(oc, pages, edits, n);
    LifeIsSound(oc, pages, edits, n);
    SearchOfIsFilter(oc, pages[n], inner, leaf, Held(edits[..n]));
    BagIsLeaves(pages[n]);
    MatchingCounts(LeavesOf(pages[n]), leaf, v);
  }

  // ----- Lives, edit by edit

  /** A life that has come to this root page and these values. */
  ghost predicate LeadsTo<K, V>(oc: OpClass<K, V>, pages: seq<seq<Tree<K, V>>>, edits: seq<Edit<K, V>>,
                                page: seq<Tree<K, V>>, held: multiset<V>) {
    Life(oc, pages, edits) && pages[|edits|] == page && Held(edits) == held
  }

  lemma LifeGrows<K, V>(oc: OpClass<K, V>, pages: seq<seq<Tree<K, V>>>, edits: seq<Edit<K, V>>, e: Edit<K, V>)
    requires Life(oc, pages, edits) && Allowed(oc, pages[|edits|], e)
    ensures Life(oc, pages + [Apply(oc, pages[|edits|], e)], edits + [e])
  {
    var pages', edits' := pages + [Apply(oc, pages[|edits|], e)], edits + [e];
    forall i: nat | i < |edits'| ensures StepAt(oc, pages', edits', i) {
      assert i < |edits| ==> StepAt(oc, pages, edits, i);
    }
  }

  lemma HeldGrows<K, V>(edits: seq<Edit<K, V>>, e: Edit<K, V>)
    ensures Held(edits + [e]) == Held(edits) + Gain(e) - Loss(e)
  {
    assert (edits + [e])[..|edits|] == edits;
  }

  lemma LeadsOn<K, V>(oc: OpClass<K, V>, pages: seq<seq<Tree<K, V>>>, edits: seq<Edit<K, V>>, e: Edit<K, V>,
                      page': seq<Tree<K, V>>, held': multiset<V>)
      returns (pages': seq<seq<Tree<K, V>>>, edits': seq<Edit<K, V>>)
    requires Life(oc, pages, edits) && Allowed(oc, pages[|edits|], e)
    requires page' == Apply(oc, pages[|edits|], e) && held' == Held(edits) + Gain(e) - Loss(e)
    ensures LeadsTo(oc, pages', edits', page', held') && |edits'| == |edits| + 1
  {
    LifeGrows(oc, pages, edits, e);
    HeldGrows(edits, e);
    pages', edits' := pages + [page'], edits + [e];
  }

  lemma AddBelow<K, V>(oc: OpClass<K, V>, page: seq<Tree<K, V>>, i: nat, v: V)
    requires i < |page| && page[i].Down?
    ensures Allowed(oc, page, Add([i], v))
    ensures Apply(oc, page, Add([i], v)) == page[i := Down(oc.adjust(page[i].key, v), page[i].page + [Leaf(v)])]
  {
    assert [i][1..] == [];
    assert ValidPath(page[i].page, []);
    assert Apply(oc, page[i].page, Add([], v)) == page[i].page + [Leaf(v)];
  }

  /** An insertion one level down. */
  lemma AddLeads<K, V>(oc: OpClass<K, V>, before: seq<seq<Tree<K, V>>>, past: seq<Edit<K, V>>, page: seq<Tree<K, V>>,
                       held: multiset<V>, i: nat, v: V, entries: seq<Tree<K, V>>)
      returns (pages: seq<seq<Tree<K, V>>>, edits: seq<Edit<K, V>>)
    requires LeadsTo(oc, before, past, page, held) && i < |page| && page[i].Down?
    requires entries == page[i].page + [Leaf(v)]
    ensures LeadsTo(oc, pages, edits, page[i := Down(oc.adjust(page[i].key, v), entries)], held + multiset{v})
    ensures |edits| == |past| + 1
  {
    AddBelow(oc, page, i, v);
    assert held + multiset{v} - multiset{} == held + multiset{v};
    pages, edits := LeadsOn(oc, before, past, Add([i], v), page[i := Down(oc.adjust(page[i].key, v), entries)],
                            held + multiset{v});
  }

  /** A split of a page below the root, or of the root page. */
  lemma SplitLeads<K, V>(oc: OpClass<K, V>, before: seq<seq<Tree<K, V>>>, past: seq<Edit<K, V>>, page: seq<Tree<K, V>>,
                         held: multiset<V>, e: Edit<K, V>)
      returns (pages: seq<seq<Tree<K, V>>>, edits: seq<Edit<K, V>>)
    requires LeadsTo(oc, before, past, page, held) && e.Splits() && Allowed(oc, page, e)
    ensures LeadsTo(oc, pages, edits, Apply(oc, page, e), held) && |edits| == |past| + 1
  {
    assert held + multiset{} - multiset{} == held;
    pages, edits := LeadsOn(oc, before, past, e, Apply(oc, page, e), held);
  }

  /** A life of two insertions and a split of the page. */
  lemma TwoAddedAndSplit<K, V>(oc: OpClass<K, V>, a: V, b: V, l: Tree<K, V>, r: Tree<K, V>)
      returns (pages: seq<seq<Tree<K, V>>>, edits: seq<Edit<K, V>>)
    requires oc.splits([Leaf(a), Leaf(b)], l, r)
    ensures LeadsTo(oc, pages, edits, [l, r], multiset{a, b}) && |edits| == 3
  {
    pages, edits := [[]], [];
    pages, edits := LeadsOn(oc, pages, edits, Add([], a), [Leaf(a)], multiset{a});
    pages, edits := LeadsOn(oc, pages, edits, Add([], b), [Leaf(a), Leaf(b)], multiset{a, b});
    pages, edits := SplitLeads(oc, pages, edits, [Leaf(a), Leaf(b)], multiset{a, b}, SplitRoot(l, r));
  }
}
