/** g_cube_union and g_cube_picksplit (contrib/cube/cube.c). */
module CubeSplit {
  import opened CubeBox

  /** r is the least box that encloses all the given ones: what encloses r is exactly what
      encloses each of them. */
  ghost predicate IsJoin(r: Cube, bs: seq<Cube>) {
    forall c: Cube :: Encloses(c, r) <==> forall i :: 0 <= i < |bs| ==> Encloses(c, bs[i])
  }

  lemma JoinExtends(r: Cube, bs: seq<Cube>, b: Cube)
    requires IsJoin(r, bs)
    ensures IsJoin(Union(r, b), bs + [b])
  {
    forall c: Cube ensures Encloses(c, Union(r, b)) <==> forall i :: 0 <= i < |bs + [b]| ==> Encloses(c, (bs + [b])[i]) {
      UnionIsJoin(r, b, c);
      assert (bs + [b])[|bs|] == b;
      assert forall i :: 0 <= i < |bs| ==> (bs + [b])[i] == bs[i];
    }
  }

  lemma JoinEncloses(r: Cube, bs: seq<Cube>, i: nat)
    requires IsJoin(r, bs) && i < |bs|
    ensures Encloses(r, bs[i])
  {
    assert Encloses(r, r);
  }

  /** g_cube_union. `repeated`: the core passes a single entry twice, as one object. The
      result of a one-element vector is a null pointer. */
  method GCubeUnion(entries: seq<Cube>, repeated: bool) returns (isNull: bool, r: Cube)
    requires entries != [] && (repeated ==> |entries| >= 2 && entries[0] == entries[1])
    ensures isNull <==> |entries| == 1
    ensures IsJoin(r, entries)
  {
    r := entries[0];
    isNull := true;
    assert entries[..1] == [r];
    JoinOne(r);
    for i := 1 to |entries|
      invariant IsJoin(r, entries[..i]) && (isNull <==> i == 1)
      invariant i == 1 ==> r == entries[0]
    {
      assert entries[..i + 1] == entries[..i] + [entries[i]];
      if repeated && i == 1 {
        JoinTwice(r);
        assert entries[..2] == [r, r];
        r := CubeUnion(r, entries[1], true);
      } else {
        JoinExtends(r, entries[..i], entries[i]);
        r := CubeUnion(r, entries[i], false);
      }
      isNull := false;
    }
    assert entries[..|entries|] == entries;
  }

  lemma JoinTwice(r: Cube)
    ensures IsJoin(r, [r, r])
  {
    forall c: Cube ensures Encloses(c, r) <==> forall i :: 0 <= i < |[r, r]| ==> Encloses(c, [r, r][i]) {
      assert [r, r][0] == r;
    }
  }

  // ----- Sizes

  function VolumeTo(b: Cube, n: nat): real
    requires n <= b.dim
  {
    if n == 0 then 1.0 else VolumeTo(b, n - 1) * Abs(b.UR(n - 1) - b.LL(n - 1))
  }

  function Size(b: Cube): real {
    if b.point || b.dim == 0 then 0.0 else VolumeTo(b, b.dim)
  }

  /** rt_cube_size */
  method RtCubeSize(b: Cube) returns (size: real)
    ensures size == Size(b)
  {
    if b.point || b.dim == 0 {
      return 0.0;
    }
    size := 1.0;
    for i := 0 to b.dim
      invariant size == VolumeTo(b, i)
    {
      size := size * Abs(b.UR(i) - b.LL(i));
    }
  }

  // ----- Seeds

  /** What a page for both entries would waste. */
  function Waste(es: seq<Cube>, i: nat, j: nat): real
    requires i < |es| && j < |es|
  {
    Size(Union(es[i], es[j])) - Size(Inter(es[i], es[j]))
  }

  predicate Before(i: nat, j: nat, s: nat, t: nat) { i < s || (i == s && j < t) }

  /** The first of the most wasteful pairs; the last entry is not considered. */
  predicate BestSeeds(es: seq<Cube>, s1: nat, s2: nat) {
    && 1 <= s1 < s2 < |es|
    && (|es| > 3 ==> s2 <= |es| - 2)
    && forall i, j :: 1 <= i < j <= |es| - 2 ==>
         NoBetter(es, i, j, s1, s2)
  }

  /** (i, j) does not take the place of (s1, s2). */
  predicate NoBetter(es: seq<Cube>, i: nat, j: nat, s1: nat, s2: nat)
    requires i < |es| && j < |es| && s1 < |es| && s2 < |es|
  {
    if Before(i, j, s1, s2) then Waste(es, i, j) < Waste(es, s1, s2) else Waste(es, i, j) <= Waste(es, s1, s2)
  }

  /** The best pair among those before (i, j). */
  ghost predicate BestSoFar(es: seq<Cube>, i: nat, j: nat, s1: nat, s2: nat, firsttime: bool) {
    && 1 <= s1 < s2 <= |es| - 1
    && (!firsttime ==> s2 <= |es| - 2 && Before(s1, s2, i, j))
    && forall p, q :: 1 <= p < q <= |es| - 2 && Before(p, q, i, j) ==>
         !firsttime && NoBetter(es, p, q, s1, s2)
  }

  lemma BestStep(es: seq<Cube>, i: nat, j: nat, s1: nat, s2: nat, firsttime: bool)
    requires 1 <= i < j <= |es| - 2 && BestSoFar(es, i, j, s1, s2, firsttime)
    ensures if firsttime || Waste(es, i, j) > Waste(es, s1, s2) then BestSoFar(es, i, j + 1, i, j, false)
            else BestSoFar(es, i, j + 1, s1, s2, false)
  {
    var take := firsttime || Waste(es, i, j) > Waste(es, s1, s2);
    forall p, q | 1 <= p < q <= |es| - 2 && Before(p, q, i, j + 1)
      ensures if take then NoBetter(es, p, q, i, j) else NoBetter(es, p, q, s1, s2)
    {
      if Before(p, q, i, j) {
        assert firsttime || NoBetter(es, p, q, s1, s2);
      }
    }
  }

  lemma BestRowDone(es: seq<Cube>, i: nat, s1: nat, s2: nat, firsttime: bool)
    requires |es| >= 3 && 1 <= i && BestSoFar(es, i, |es| - 1, s1, s2, firsttime)
    ensures BestSoFar(es, i + 1, i + 2, s1, s2, firsttime)
  {
    forall p, q | 1 <= p < q <= |es| - 2 && Before(p, q, i + 1, i + 2) ensures !firsttime && NoBetter(es, p, q, s1, s2) {
      assert Before(p, q, i, |es| - 1);
    }
  }

  lemma BestAllDone(es: seq<Cube>, i: nat, s1: nat, s2: nat, firsttime: bool)
    requires |es| >= 3 && |es| - 2 <= i && BestSoFar(es, i, i + 1, s1, s2, firsttime) && (firsttime ==> i == 1 && s2 == 2)
    ensures BestSeeds(es, s1, s2)
  {
  }

  method WasteOf(a: Cube, b: Cube) returns (w: real)
    ensures w == Size(Union(a, b)) - Size(Inter(a, b))
  {
    var u := CubeUnion(a, b, false);
    var sizeUnion := RtCubeSize(u);
    var d := CubeInter(a, b);
    var sizeInter := RtCubeSize(d);
    w := sizeUnion - sizeInter;
  }

  /** One row of the seed search, all partners of entry i. */
  method PickRow(es: seq<Cube>, i: nat, t1: nat, t2: nat, most: real, first: bool)
    returns (s1: nat, s2: nat, waste: real, firsttime: bool)
    requires 1 <= i < |es| - 2 && BestSoFar(es, i, i + 1, t1, t2, first)
    requires !first ==> most == Waste(es, t1, t2)
    ensures BestSoFar(es, i + 1, i + 2, s1, s2, firsttime)
    ensures !firsttime && waste == Waste(es, s1, s2)
  {
    s1, s2, waste, firsttime := t1, t2, most, first;
    var j: nat := i + 1;
    while j <= |es| - 2
      invariant i < j <= |es| - 1
      invariant BestSoFar(es, i, j, s1, s2, firsttime)
      invariant !firsttime ==> waste == Waste(es, s1, s2)
      invariant i + 1 < j ==> !firsttime
    {
      var sizeWaste := WasteOf(es[i], es[j]);
      BestStep(es, i, j, s1, s2, firsttime);
      if sizeWaste > waste || firsttime {
        waste := sizeWaste;
        s1, s2 := i, j;
        firsttime := false;
      }
      j := j + 1;
    }
    BestRowDone(es, i, s1, s2, firsttime);
  }

  method PickSeeds(es: seq<Cube>) returns (s1: nat, s2: nat)
    requires |es| >= 3
    ensures BestSeeds(es, s1, s2)
  {
    var firsttime, waste := true, 0.0;
    s1, s2 := 1, 2;
    var i: nat := 1;
    while i < |es| - 2
      invariant 1 <= i <= |es| - 2
      invariant BestSoFar(es, i, i + 1, s1, s2, firsttime)
      invariant !firsttime ==> waste == Waste(es, s1, s2)
      invariant firsttime ==> i == 1 && s2 == 2
    {
      s1, s2, waste, firsttime := PickRow(es, i, s1, s2, waste, firsttime);
      i := i + 1;
    }
    BestAllDone(es, i, s1, s2, firsttime);
  }

  // ----- Distribution

  /** The box of a side: the seed's own, joined with the other entries in order. */
  function Grown(es: seq<Cube>, seed: nat, side: seq<nat>): Cube
    requires seed < |es| && Offsets(es, side)
  {
    if side == [] then es[seed]
    else
      var rest := side[..|side| - 1];
      var last := side[|side| - 1];
      if last == seed then Grown(es, seed, rest) else Union(Grown(es, seed, rest), es[last])
  }

  predicate Offsets(es: seq<Cube>, side: seq<nat>) {
    forall i :: 0 <= i < |side| ==> side[i] < |es|
  }

  predicate Ascending(s: seq<nat>) {
    forall i, j :: 0 <= i < j < |s| ==> s[i] < s[j]
  }

  /** The part of an ascending list below k. */
  function Below(s: seq<nat>, k: nat): (t: seq<nat>)
    ensures t <= s
  {
    if s == [] || s[|s| - 1] < k then s else Below(s[..|s| - 1], k)
  }

  /** The first box grows less than the second when b joins. */
  predicate GrowsLess(l: Cube, r: Cube, b: Cube) {
    Size(Union(l, b)) - Size(l) < Size(Union(r, b)) - Size(r)
  }

  datatype Split = Split(left: seq<nat>, right: seq<nat>, l: Cube, r: Cube)

  /** Offsets 1..n - 1 divided in two ascending lists. */
  predicate Divides(left: seq<nat>, right: seq<nat>, n: nat) {
    && Ascending(left) && Ascending(right) && |left| + |right| == n - 1
    && (forall i :: 0 <= i < |left| ==> 1 <= left[i] < n && left[i] !in right)
    && (forall i :: 0 <= i < |right| ==> 1 <= right[i] < n)
    && (forall o :: 1 <= o < n ==> o in left || o in right)
  }

  /** Offset k went where its box had to grow less, given the entries before it: to its own
      side if a seed, to the right on a tie. */
  predicate WellPlaced(es: seq<Cube>, s1: nat, s2: nat, left: seq<nat>, right: seq<nat>, k: nat)
    requires s1 < |es| && s2 < |es| && k < |es| && Offsets(es, left) && Offsets(es, right)
  {
    k in left <==>
      k == s1 || (k != s2 && GrowsLess(Grown(es, s1, Below(left, k)), Grown(es, s2, Below(right, k)), es[k]))
  }

  lemma DividesMore(left: seq<nat>, right: seq<nat>, n: nat)
    requires 1 <= n && Divides(left, right, n)
    ensures Divides(left + [n], right, n + 1) && Divides(left, right + [n], n + 1)
  {
    assert (left + [n])[|left|] == n && (right + [n])[|right|] == n;
    forall o | 1 <= o < n + 1 ensures (o in left + [n] || o in right) && (o in left || o in right + [n]) {
    }
  }

  /** Later offsets do not change what was below k. */
  lemma PlacedStays(es: seq<Cube>, s1: nat, s2: nat, left: seq<nat>, right: seq<nat>, k: nat, i: nat)
    requires s1 < |es| && s2 < |es| && k < i < |es| && Offsets(es, left) && Offsets(es, right)
    requires WellPlaced(es, s1, s2, left, right, k)
    ensures WellPlaced(es, s1, s2, left + [i], right, k) && WellPlaced(es, s1, s2, left, right + [i], k)
  {
    assert (left + [i])[..|left|] == left && (right + [i])[..|right|] == right;
    assert Below(left + [i], k) == Below(left, k) && Below(right + [i], k) == Below(right, k);
  }

  /** The entries of a side, its seed in front. */
  function Side(es: seq<Cube>, seed: nat, side: seq<nat>): seq<Cube>
    requires seed < |es| && Offsets(es, side)
  {
    [es[seed]] + seq(|side|, i requires 0 <= i < |side| => es[side[i]])
  }

  lemma SideExtends(es: seq<Cube>, seed: nat, side: seq<nat>)
    requires seed < |es| && Offsets(es, side) && side != []
    ensures Side(es, seed, side) == Side(es, seed, side[..|side| - 1]) + [es[side[|side| - 1]]]
  {
  }

  /** A seed added a second time changes nothing. */
  lemma JoinRepeats(r: Cube, bs: seq<Cube>)
    requires bs != [] && IsJoin(r, bs)
    ensures IsJoin(r, bs + [bs[0]])
  {
    forall c: Cube ensures Encloses(c, r) <==> forall i :: 0 <= i < |bs + [bs[0]]| ==> Encloses(c, (bs + [bs[0]])[i]) {
      assert forall i :: 0 <= i < |bs| ==> (bs + [bs[0]])[i] == bs[i];
    }
  }

  lemma JoinOne(b: Cube)
    ensures IsJoin(b, [b])
  {
    forall c: Cube ensures Encloses(c, b) <==> forall i :: 0 <= i < |[b]| ==> Encloses(c, [b][i]) {
      assert [b][0] == b;
    }
  }

  /** A side's box is the least one that encloses its entries. */
  lemma {:induction false} GrownJoins(es: seq<Cube>, seed: nat, side: seq<nat>)
    requires seed < |es| && Offsets(es, side)
    ensures IsJoin(Grown(es, seed, side), Side(es, seed, side))
  {
    if side == [] {
      assert Side(es, seed, side) == [es[seed]];
      JoinOne(es[seed]);
    } else {
      var rest, last := side[..|side| - 1], side[|side| - 1];
      GrownJoins(es, seed, rest);
      SideExtends(es, seed, side);
      if last == seed {
        JoinRepeats(Grown(es, seed, rest), Side(es, seed, rest));
      } else {
        JoinExtends(Grown(es, seed, rest), Side(es, seed, rest), es[last]);
      }
    }
  }

  lemma GrownEncloses(es: seq<Cube>, seed: nat, side: seq<nat>, i: nat)
    requires seed < |es| && Offsets(es, side) && i < |side|
    ensures Encloses(Grown(es, seed, side), es[side[i]])
  {
    GrownJoins(es, seed, side);
    assert Side(es, seed, side)[i + 1] == es[side[i]];
    JoinEncloses(Grown(es, seed, side), Side(es, seed, side), i + 1);
  }

  /** What g_cube_picksplit promises of its result. */
  ghost predicate SoundSplit(es: seq<Cube>, p: Split) {
    && p.left != [] && p.right != [] && Divides(p.left, p.right, |es|)
    && (forall i :: 0 <= i < |p.left| ==> Encloses(p.l, es[p.left[i]]))
    && (forall i :: 0 <= i < |p.right| ==> Encloses(p.r, es[p.right[i]]))
  }

  method Enlarge(l: Cube, r: Cube, sizeL: real, sizeR: real, b: Cube)
    returns (goesLeft: bool, unionL: Cube, sizeAlpha: real, unionR: Cube, sizeBeta: real)
    requires sizeL == Size(l) && sizeR == Size(r)
    ensures goesLeft == GrowsLess(l, r, b)
    ensures unionL == Union(l, b) && sizeAlpha == Size(unionL) && unionR == Union(r, b) && sizeBeta == Size(unionR)
  {
    unionL := CubeUnion(l, b, false);
    unionR := CubeUnion(r, b, false);
    sizeAlpha := RtCubeSize(unionL);
    sizeBeta := RtCubeSize(unionR);
    goesLeft := sizeAlpha - sizeL < sizeBeta - sizeR;
  }

  /** The second half of g_cube_picksplit, for whichever seeds were chosen. */
  method Distribute(es: seq<Cube>, s1: nat, s2: nat) returns (v: Split)
    requires 1 <= s1 < s2 < |es|
    ensures Divides(v.left, v.right, |es|) && s1 in v.left && s2 in v.right
    ensures v.l == Grown(es, s1, v.left) && v.r == Grown(es, s2, v.right)
    ensures forall k :: 1 <= k < |es| ==> WellPlaced(es, s1, s2, v.left, v.right, k)
  {
    // A union of an entry with itself is the entry.
    var l := CubeUnion(es[s1], es[s1], true);
    var r := CubeUnion(es[s2], es[s2], true);
    v := Split([], [], l, r);
    var sizeL := RtCubeSize(v.l);
    var sizeR := RtCubeSize(v.r);
    var i: nat := 1;
    while i < |es|
      invariant 1 <= i <= |es| && Divides(v.left, v.right, i)
      invariant v.l == Grown(es, s1, v.left) && v.r == Grown(es, s2, v.right)
      invariant sizeL == Size(v.l) && sizeR == Size(v.r)
      invariant s1 < i ==> s1 in v.left
      invariant s2 < i ==> s2 in v.right
      invariant forall k :: 1 <= k < i ==> WellPlaced(es, s1, s2, v.left, v.right, k)
    {
      ghost var w := v;
      if i == s1 {
        v := v.(left := v.left + [i]);
      } else if i == s2 {
        v := v.(right := v.right + [i]);
      } else {
        var goesLeft, unionL, sizeAlpha, unionR, sizeBeta := Enlarge(v.l, v.r, sizeL, sizeR, es[i]);
        if goesLeft {
          v := v.(left := v.left + [i], l := unionL);
          sizeL := sizeAlpha;
        } else {
          v := v.(right := v.right + [i], r := unionR);
          sizeR := sizeBeta;
        }
      }
      Placed(es, s1, s2, w, v, i);
      i := i + 1;
    }
  }

  /** One step of the distribution. */
  predicate PlacesNext(es: seq<Cube>, s1: nat, s2: nat, w: Split, v: Split, i: nat)
    requires i < |es|
  {
    if i == s1 || (i != s2 && GrowsLess(w.l, w.r, es[i])) then
      v == w.(left := w.left + [i], l := if i == s1 then w.l else Union(w.l, es[i]))
    else
      v == w.(right := w.right + [i], r := if i == s2 then w.r else Union(w.r, es[i]))
  }

  /** It keeps the loop's promises. */
  lemma Placed(es: seq<Cube>, s1: nat, s2: nat, w: Split, v: Split, i: nat)
    requires 1 <= s1 < s2 < |es| && 1 <= i < |es| && Divides(w.left, w.right, i)
    requires w.l == Grown(es, s1, w.left) && w.r == Grown(es, s2, w.right)
    requires forall k :: 1 <= k < i ==> WellPlaced(es, s1, s2, w.left, w.right, k)
    requires PlacesNext(es, s1, s2, w, v, i)
    ensures Divides(v.left, v.right, i + 1)
    ensures v.l == Grown(es, s1, v.left) && v.r == Grown(es, s2, v.right)
    ensures forall k :: 1 <= k < i + 1 ==> WellPlaced(es, s1, s2, v.left, v.right, k)
  {
    DividesMore(w.left, w.right, i);
    GrownMore(es, s1, w.left, i);
    GrownMore(es, s2, w.right, i);
    forall k | 1 <= k < i ensures WellPlaced(es, s1, s2, v.left, v.right, k) {
      PlacedStays(es, s1, s2, w.left, w.right, k, i);
    }
    PlacedNow(es, s1, s2, w, v, i);
  }

  lemma PlacedNow(es: seq<Cube>, s1: nat, s2: nat, w: Split, v: Split, i: nat)
    requires 1 <= s1 < s2 < |es| && 1 <= i < |es| && Divides(w.left, w.right, i)
    requires w.l == Grown(es, s1, w.left) && w.r == Grown(es, s2, w.right)
    requires PlacesNext(es, s1, s2, w, v, i)
    ensures Offsets(es, v.left) && Offsets(es, v.right) && WellPlaced(es, s1, s2, v.left, v.right, i)
  {
    BelowSelf(w.left, i);
    BelowSelf(w.right, i);
    assert Below(v.left, i) == w.left && Below(v.right, i) == w.right;
    if v.left == w.left {
      assert i !in v.left;
    } else {
      assert v.left[|w.left|] == i;
    }
  }

  lemma GrownMore(es: seq<Cube>, seed: nat, side: seq<nat>, i: nat)
    requires seed < |es| && i < |es| && Offsets(es, side)
    ensures Grown(es, seed, side + [i]) ==
            if i == seed then Grown(es, seed, side) else Union(Grown(es, seed, side), es[i])
  {
    assert (side + [i])[..|side|] == side;
  }

  lemma BelowSelf(s: seq<nat>, i: nat)
    requires forall k :: 0 <= k < |s| ==> s[k] < i
    ensures Below(s, i) == s && Below(s + [i], i) == s
  {
    assert (s + [i])[..|s|] == s;
  }

  /** g_cube_picksplit */
  method GCubePickSplit(es: seq<Cube>) returns (s1: nat, s2: nat, v: Split)
    requires |es| >= 3
    ensures BestSeeds(es, s1, s2) && SoundSplit(es, v)
    ensures forall k :: 1 <= k < |es| ==> WellPlaced(es, s1, s2, v.left, v.right, k)
    ensures v.l == Grown(es, s1, v.left) && v.r == Grown(es, s2, v.right)
    ensures IsJoin(v.l, Side(es, s1, v.left)) && IsJoin(v.r, Side(es, s2, v.right))
  {
    s1, s2 := PickSeeds(es);
    v := Distribute(es, s1, s2);
    GrownJoins(es, s1, v.left);
    GrownJoins(es, s2, v.right);
    forall i | 0 <= i < |v.left| ensures Encloses(v.l, es[v.left[i]]) {
      GrownEncloses(es, s1, v.left, i);
    }
    forall i | 0 <= i < |v.right| ensures Encloses(v.r, es[v.right[i]]) {
      GrownEncloses(es, s2, v.right, i);
    }
  }
}
