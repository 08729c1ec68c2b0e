/** The GiST index of cubes (contrib/cube/cube.c) through its life. */
module CubeIndex {
  import opened CubeBox
  import opened CubeSearch
  import opened CubeSplit
  import opened GistIndex

  type Entry = Tree<Cube, Cube>

  function BoxOf(t: Entry): Cube {
    if t.Leaf? then t.v else t.key
  }

  /** The entry vector that picksplit is given: offsets start at 1. */
  function Vector(page: seq<Entry>): (es: seq<Cube>)
    ensures |es| == |page| + 1
  {
    seq(|page| + 1, i requires 0 <= i <= |page| => if i == 0 then Box(0, true, []) else BoxOf(page[i - 1]))
  }

  predicate InPage(page: seq<Entry>, side: seq<nat>) {
    forall i :: 0 <= i < |side| ==> 1 <= side[i] <= |page|
  }

  /** The entries at these offsets. */
  function At(page: seq<Entry>, side: seq<nat>): (half: seq<Entry>)
    requires InPage(page, side)
    ensures |half| == |side|
  {
    seq(|side|, i requires 0 <= i < |side| => page[side[i] - 1])
  }

  /** g_cube_picksplit makes these downlinks of a page, from these seeds and offset lists. */
  predicate SplitsBy(page: seq<Entry>, l: Entry, r: Entry, s1: nat, s2: nat, left: seq<nat>, right: seq<nat>) {
    var es := Vector(page);
    && |es| >= 3 && BestSeeds(es, s1, s2) && Divides(left, right, |es|) && InPage(page, left) && InPage(page, right)
    && Offsets(es, left) && Offsets(es, right)
    && (forall k :: 1 <= k < |es| ==> WellPlaced(es, s1, s2, left, right, k))
    && l == Down(Grown(es, s1, left), At(page, left)) && r == Down(Grown(es, s2, right), At(page, right))
  }

  ghost predicate Splits(page: seq<Entry>, l: Entry, r: Entry) {
    exists s1, s2, left, right :: SplitsBy(page, l, r, s1, s2, left, right)
  }

  /** Every page of two or more entries can be split. */
  method SplitPage(page: seq<Entry>) returns (l: Entry, r: Entry)
    requires |page| >= 2
    ensures Splits(page, l, r)
  {
    var es := Vector(page);
    var s1, s2, v := GCubePickSplit(es);
    l, r := Down(v.l, At(page, v.left)), Down(v.r, At(page, v.right));
    assert SplitsBy(page, l, r, s1, s2, v.left, v.right);
  }

  ghost function CubeClass(): OpClass<Cube, Cube> {
    OpClass(key => true, (key, v) => Encloses(key, v), (key, v) => Union(key, v),
            (page, l, r) => Splits(page, l, r), (l, r) => true)
  }

  // ----- Laws

  lemma AtLast(page: seq<Entry>, side: seq<nat>)
    requires InPage(page, side) && side != []
    ensures var init, last := side[..|side| - 1], side[|side| - 1];
            InPage(page, init) && multiset(At(page, side)) == multiset(At(page, init)) + multiset{page[last - 1]}
  {
    var init, last := side[..|side| - 1], side[|side| - 1];
    assert At(page, side) == At(page, init) + [page[last - 1]];
  }

  lemma PrefixGrows(page: seq<Entry>, m: nat)
    requires 1 <= m <= |page|
    ensures multiset(page[..m]) == multiset(page[..m - 1]) + multiset{page[m - 1]}
  {
    assert page[..m] == page[..m - 1] + [page[m - 1]];
  }

  lemma DividesSwap(left: seq<nat>, right: seq<nat>, n: nat)
    requires Divides(left, right, n)
    ensures Divides(right, left, n)
  {
    forall i | 0 <= i < |right| ensures right[i] !in left {
    }
  }

  lemma LastIsGreatest(s: seq<nat>, x: nat)
    requires Ascending(s) && x in s
    ensures x <= s[|s| - 1]
  {
    var i :| 0 <= i < |s| && s[i] == x;
    if i < |s| - 1 {
      assert s[i] < s[|s| - 1];
    }
  }

  /** The greatest offset comes last on its side. */
  lemma LastOffset(left: seq<nat>, right: seq<nat>, n: nat)
    requires n > 1 && Divides(left, right, n) && n - 1 in left
    ensures left[|left| - 1] == n - 1 && Divides(left[..|left| - 1], right, n - 1)
  {
    LastIsGreatest(left, n - 1);
    var init := left[..|left| - 1];
    assert forall o :: o in left ==> o in init || o == n - 1;
    forall j | 0 <= j < |init| ensures init[j] < n - 1 {
      assert left[j] < left[|left| - 1];
    }
    forall j | 0 <= j < |right| ensures right[j] < n - 1 {
      assert right[j] != n - 1;
    }
  }

  lemma DividedStep(page: seq<Entry>, left: seq<nat>, right: seq<nat>, n: nat)
    requires 1 < n <= |page| + 1 && InPage(page, left) && InPage(page, right)
    requires left != [] && left[|left| - 1] == n - 1 && InPage(page, left[..|left| - 1])
    requires multiset(At(page, left[..|left| - 1])) + multiset(At(page, right)) == multiset(page[..n - 2])
    ensures multiset(At(page, left)) + multiset(At(page, right)) == multiset(page[..n - 1])
  {
    AtLast(page, left);
    PrefixGrows(page, n - 1);
  }

  lemma {:induction false} DividedLeft(page: seq<Entry>, left: seq<nat>, right: seq<nat>, n: nat)
    requires 1 < n <= |page| + 1 && Divides(left, right, n) && InPage(page, left) && InPage(page, right) && n - 1 in left
    ensures multiset(At(page, left)) + multiset(At(page, right)) == multiset(page[..n - 1])
    decreases n, 0
  {
    LastOffset(left, right, n);
    DividedBag(page, left[..|left| - 1], right, n - 1);
    DividedStep(page, left, right, n);
  }

  /** Lists that divide the offsets divide the entries. */
  lemma {:induction false} DividedBag(page: seq<Entry>, left: seq<nat>, right: seq<nat>, n: nat)
    requires 1 <= n <= |page| + 1 && Divides(left, right, n) && InPage(page, left) && InPage(page, right)
    ensures multiset(At(page, left)) + multiset(At(page, right)) == multiset(page[..n - 1])
    decreases n, 1
  {
    if n == 1 {
      assert At(page, left) == [] && At(page, right) == [];
    } else if n - 1 in left {
      DividedLeft(page, left, right, n);
    } else {
      DividesSwap(left, right, n);
      DividedLeft(page, right, left, n);
    }
  }

  lemma HalvesHoldPage(page: seq<Entry>, left: seq<nat>, right: seq<nat>)
    requires Divides(left, right, |page| + 1) && InPage(page, left) && InPage(page, right)
    ensures multiset(At(page, left) + At(page, right)) == multiset(page)
  {
    DividedBag(page, left, right, |page| + 1);
    assert page[..|page|] == page;
  }

  lemma SplitHoldsPage(page: seq<Entry>, l: Entry, r: Entry)
    requires Splits(page, l, r)
    ensures l.Down? && r.Down? && multiset(l.page + r.page) == multiset(page)
  {
    var s1, s2, left, right :| SplitsBy(page, l, r, s1, s2, left, right);
    HalvesHoldPage(page, left, right);
  }

  lemma EntryEncloses(t: Entry, v: Cube)
    requires Sound(CubeClass(), t) && v in EntryBag(t)
    ensures Encloses(BoxOf(t), v)
  {
    if t.Down? {
      assert CubeClass().covers(t.key, v);
    }
  }

  /** The box of a side encloses whatever its entries do. */
  lemma SideEncloses(page: seq<Entry>, seed: nat, side: seq<nat>, i: nat, v: Cube)
    requires InPage(page, side) && seed <= |page| && Offsets(Vector(page), side) && i < |side|
    requires Sound(CubeClass(), At(page, side)[i]) && v in EntryBag(At(page, side)[i])
    ensures Encloses(Grown(Vector(page), seed, side), v)
  {
    var t := At(page, side)[i];
    EntryEncloses(t, v);
    GrownEncloses(Vector(page), seed, side, i);
    EnclosesTransitive(Grown(Vector(page), seed, side), BoxOf(t), v);
  }

  lemma {:induction false} SideIsSound(page: seq<Entry>, seed: nat, side: seq<nat>)
    requires PageSound(CubeClass(), page) && InPage(page, side) && seed <= |page| && Offsets(Vector(page), side)
    ensures Sound(CubeClass(), Down(Grown(Vector(page), seed, side), At(page, side)))
  {
    var box, half := Grown(Vector(page), seed, side), At(page, side);
    forall i | 0 <= i < |half| ensures Sound(CubeClass(), half[i]) {
      assert half[i] in page;
    }
    forall v | v in Bag(half) ensures Encloses(box, v) {
      var i := EntryWith(half, v);
      SideEncloses(page, seed, side, i, v);
    }
  }

  lemma CubeClassIsLawful()
    ensures Lawful(CubeClass())
  {
    var oc := CubeClass();
    forall key, v | oc.ok(key) ensures oc.ok(oc.adjust(key, v)) && oc.covers(oc.adjust(key, v), v) {
      UnionEncloses(key, v);
    }
    forall key, v, x | oc.ok(key) && oc.covers(key, x) ensures oc.covers(oc.adjust(key, v), x) {
      UnionEncloses(key, v);
      EnclosesTransitive(Union(key, v), key, x);
    }
    forall page, l, r | oc.splits(page, l, r) ensures l.Down? && r.Down? && multiset(l.page + r.page) == multiset(page) {
      SplitHoldsPage(page, l, r);
    }
    forall page, l, r | oc.splits(page, l, r) && oc.safe(l, r) && PageSound(oc, page)
      ensures Sound(oc, l) && Sound(oc, r)
    {
      var s1, s2, left, right :| SplitsBy(page, l, r, s1, s2, left, right);
      SideIsSound(page, s1, left);
      SideIsSound(page, s2, right);
    }
  }

  /** Every split of boxes is safe, so at every moment of every life every box encloses all
      that is below it. */
  lemma BoxesEnclose(pages: seq<seq<Entry>>, edits: seq<Edit<Cube, Cube>>, n: nat)
    requires Life(CubeClass(), pages, edits) && n <= |edits|
    ensures PageSound(CubeClass(), pages[n])
  {
    CubeClassIsLawful();
    LifeIsSound(CubeClass(), pages, edits, n);
  }

  // ----- Searches

  function Find(page: seq<Entry>, query: Cube, s: Strategy): seq<Cube> {
    SearchOf(page, (key: Cube) => InnerConsistent(key, query, s), (v: Cube) => LeafConsistent(v, query, s))
  }

  /** What contained-by asks of the cubes at hand: the query's axes beyond those of a match
      include zero. The other strategies ask nothing. */
  ghost predicate Fair(vs: multiset<Cube>, query: Cube, s: Strategy) {
    s.ContainedBy? ==> forall v :: v in vs && LeafConsistent(v, query, s) ==> ExtraIncludeZero(query, v)
  }

  /** At every moment of every life a search returns no cube that does not match and none more
      often than it is in the index; and each one that matches as often as it is there, for
      every strategy but contained-by, and for that one on its condition. */
  lemma SearchFindsExactly(pages: seq<seq<Entry>>, edits: seq<Edit<Cube, Cube>>, n: nat,
                           query: Cube, s: Strategy, v: Cube)
    requires Life(CubeClass(), pages, edits) && n <= |edits|
    ensures multiset(Find(pages[n], query, s))[v] <= if LeafConsistent(v, query, s) then Held(edits[..n])[v] else 0
    ensures Fair(Held(edits[..n]), query, s) ==>
              multiset(Find(pages[n], query, s))[v] == if LeafConsistent(v, query, s) then Held(edits[..n])[v] else 0
  {
    var oc := CubeClass();
    var inner := (key: Cube) => InnerConsistent(key, query, s);
    var leaf := (x: Cube) => LeafConsistent(x, query, s);
    CubeClassIsLawful();
    SearchFindsOnly(oc, pages, edits, n, inner, leaf, v);
    if Fair(Held(edits[..n]), query, s) {
      forall key, x | oc.ok(key) && oc.covers(key, x) && x in Held(edits[..n]) && leaf(x) ensures inner(key) {
        NeverPruned(key, x, query, s);
      }
      GistIndex.SearchFindsExactly(oc, pages, edits, n, inner, leaf, v);
    }
  }

  // ----- What contained-by misses

  const POINT: Cube := Box(1, true, [1.0])
  const SQUARE: Cube := Box(2, false, [0.0, 1.0, 2.0, 2.0])

  const BELOW: Entry := Down(POINT, [Leaf(POINT)])

  lemma TwoPointsSplit()
    ensures Splits([Leaf(POINT), Leaf(POINT)], BELOW, BELOW)
  {
    var page: seq<Entry> := [Leaf(POINT), Leaf(POINT)];
    var es, one: seq<nat>, two: seq<nat> := Vector(page), [1], [2];
    assert es[1] == POINT && es[2] == POINT;
    assert one[..0] == [] && two[..0] == [];
    assert Grown(es, 1, one) == POINT;
    assert Grown(es, 2, two) == POINT;
    assert SplitsBy(page, BELOW, BELOW, 1, 2, one, two);
  }

  lemma PointIsMissed()
    ensures LeafConsistent(POINT, SQUARE, ContainedBy) && Find([BELOW, BELOW], SQUARE, ContainedBy) == []
  {
    assert SQUARE.Lo(0) == 0.0 && SQUARE.Hi(0) == 2.0 && SQUARE.Lo(1) == 1.0;
    assert POINT.Hi(1) == 0.0;
    NothingEntered([BELOW, BELOW], (key: Cube) => InnerConsistent(key, SQUARE, ContainedBy),
                   (v: Cube) => LeafConsistent(v, SQUARE, ContainedBy));
  }

  /** The point (1) is contained in the square [0,2]x[1,2]. Inserted twice, it is not found once
      the page is split. */
  lemma ContainedByMisses() returns (pages: seq<seq<Entry>>, edits: seq<Edit<Cube, Cube>>)
    ensures Life(CubeClass(), pages, edits) && |edits| == 3
    ensures Held(edits) == multiset{POINT, POINT} && LeafConsistent(POINT, SQUARE, ContainedBy)
    ensures Find(pages[3], SQUARE, ContainedBy) == []
  {
    TwoPointsSplit();
    pages, edits := TwoAddedAndSplit(CubeClass(), POINT, POINT, BELOW, BELOW);
    PointIsMissed();
  }
}
