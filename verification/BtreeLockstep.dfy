/** Parent and child levels move in lockstep: what acceptance of an internal level says
    about the level below it. */
module BtreeLockstep {
  import opened BtreeSpec
  import opened BtreeWalk

  /** Downlinks of a page from offset o on. */
  function DownlinksFrom(t: BtPage, o: nat): seq<nat>
    requires 1 <= o
    decreases MaxOffset(t) + 1 - o
  {
    if o > MaxOffset(t) then [] else [Line(t, o).downlink] + DownlinksFrom(t, o + 1)
  }

  function ChainDownlinks(g: Graph, chain: seq<nat>): seq<nat>
    requires forall b :: b in chain ==> b in g
  {
    if chain == [] then []
    else DownlinksFrom(g[chain[0]], FirstDataKey(g[chain[0]])) + ChainDownlinks(g, chain[1..])
  }

  /** A page of the level that has not been deleted. */
  predicate LiveAt(g: Graph, b: nat, level: int) {
    b in g && b != P_NONE && !g[b].deleted && g[b].level == level
  }

  predicate LeadsToDeleted(g: Graph, b: nat) {
    b != P_NONE && b in g && g[b].deleted
  }

  /** No split or deletion was interrupted on the level below. No live page there is
      half-dead, split or root-flagged, nor linked on to a deleted page; no downlink of the
      level is zero or leads to a deleted page; no half-dead leaf names a page of the level
      below as the top of the subtree being deleted. */
  ghost predicate Settled(g: Graph, level: nat) {
    && (forall b :: LiveAt(g, b, level - 1) ==>
          !g[b].halfDead && !g[b].incompleteSplit && !g[b].root && !LeadsToDeleted(g, g[b].next))
    && (forall b :: LiveAt(g, b, level) && level > 0 ==> SoundDownlinks(g, g[b]))
    && (forall h :: h in g && g[h].halfDead && MaxOffset(g[h]) >= 1 ==>
          !LiveAt(g, g[h].lines[0].downlink, level - 1))
  }

  predicate SoundDownlinks(g: Graph, t: BtPage) {
    forall o :: FirstDataKey(t) <= o <= MaxOffset(t) ==>
      Line(t, o).downlink != P_NONE && !LeadsToDeleted(g, Line(t, o).downlink)
  }

  /** The child walk is not in the middle of a split or a deletion. */
  predicate Quiet(g: Graph, st: ChildState) {
    !st.incompleteSplit && !LeadsToDeleted(g, st.rightlink)
  }

  /** d is where the child level continues from st. */
  ghost predicate Follows(g: Graph, st: ChildState, d: nat) {
    d in g && if st.rightlink == INVALID_BLOCK then LeftEnd(g, d) else d == st.rightlink
  }

  /** A child's high key is the key that follows its downlink on the parent. */
  predicate KeyedTo(g: Graph, t: BtPage, o: nat)
    requires 1 <= o <= MaxOffset(t)
  {
    var d := Line(t, o).downlink;
    && d in g
    && (!Rightmost(g[d]) ==>
          && MaxOffset(g[d]) >= 1
          && if o < MaxOffset(t) then g[d].lines[0].key == Line(t, o + 1).key
             else !Rightmost(t) && g[d].lines[0].key == t.lines[0].key)
  }

  // ----- One call of the child walk

  lemma NoDownlinkNotTolerated(g: Graph, level: nat, blkno: nat)
    requires Settled(g, level) && LiveAt(g, blkno, level - 1)
    ensures !MissingDownlinkOk(g, false, blkno)
  {
  }

  /** On a settled level the child walk never steps over a page. */
  lemma ChildWalkIsDirect(g: Graph, t: BtPage, lowkey: MaybeTuple, st: ChildState, off: nat)
    requires Settled(g, t.level) && Quiet(g, st) && !t.leaf && FirstDataKey(t) <= off <= MaxOffset(t)
    requires SoundDownlinks(g, t)
    ensures ChildHighKey(g, t, lowkey, st, off) != Revisits
    ensures ChildHighKey(g, t, lowkey, st, off).Pass? ==>
              var d := Line(t, off).downlink;
              && Follows(g, st, d) && LiveAt(g, d, t.level - 1)
              && ChildHighKey(g, t, lowkey, st, off) == Pass(ChildState(g[d].next, false))
              && Quiet(g, ChildState(g[d].next, false)) && g[d].prev != d && KeyedTo(g, t, off)
  {
    var d := Line(t, off).downlink;
    var blkno := if st.rightlink == INVALID_BLOCK then d else st.rightlink;
    if blkno in g && blkno != P_NONE && ChildPageOk(g, t, lowkey, st, off, d, blkno, false, true) {
      assert LiveAt(g, blkno, t.level - 1);
      if blkno != d {
        NoDownlinkNotTolerated(g, t.level, blkno);
        assert false;
      }
      LeftmostIff(g, d);
    }
  }

  // ----- One page

  /** ds continues the child level from st, one page after the other. */
  ghost predicate Linked(g: Graph, level: nat, st: ChildState, ds: seq<nat>) {
    && (forall i :: 0 <= i < |ds| ==> LiveAt(g, ds[i], level - 1))
    && (forall i :: 1 <= i < |ds| ==> Follows(g, ChildState(g[ds[i - 1]].next, false), ds[i]))
    && (ds != [] ==> Follows(g, st, ds[0]))
  }

  function EndState(g: Graph, st: ChildState, ds: seq<nat>): ChildState
    requires forall d :: d in ds ==> d in g
  {
    if ds == [] then st else ChildState(g[ds[|ds| - 1]].next, false)
  }

  lemma LinkedJoin(g: Graph, level: nat, st: ChildState, a: seq<nat>, b: seq<nat>)
    requires a != [] && Linked(g, level, st, a) && Linked(g, level, EndState(g, st, a), b)
    ensures Linked(g, level, st, a + b)
    ensures EndState(g, EndState(g, st, a), b) == EndState(g, st, a + b)
  {
    var ds := a + b;
    forall i | 1 <= i < |ds| ensures Follows(g, ChildState(g[ds[i - 1]].next, false), ds[i]) {
    }
  }

  /** On an internal page every offset takes part in the child walk. */
  lemma ItemStep(g: Graph, t: BtPage, lowkey: MaybeTuple, st: ChildState, off: nat)
    requires !t.leaf && FirstDataKey(t) <= off <= MaxOffset(t) && ItemsLoop(g, t, lowkey, st, off).Pass?
    ensures ChildHighKey(g, t, lowkey, st, off).Pass?
    ensures ItemsLoop(g, t, lowkey, st, off) ==
            ItemsLoop(g, t, lowkey, ChildHighKey(g, t, lowkey, st, off).value, off + 1)
    ensures FirstReal(t) <= off ==>
              var d := Line(t, off).downlink; d in g && AllAbove(g[d], Line(t, off).key)
  {
  }

  /** One downlink of an accepted page, and what is left to check after it. */
  lemma DownlinkStep(g: Graph, t: BtPage, lowkey: MaybeTuple, st: ChildState, off: nat)
    requires Settled(g, t.level) && !t.leaf && SoundDownlinks(g, t) && Quiet(g, st)
    requires FirstDataKey(t) <= off <= MaxOffset(t) && ItemsLoop(g, t, lowkey, st, off).Pass?
    ensures var d := Line(t, off).downlink;
            && Linked(g, t.level, st, [d]) && KeyedTo(g, t, off) && g[d].prev != d
            && ItemsLoop(g, t, lowkey, st, off) == ItemsLoop(g, t, lowkey, EndState(g, st, [d]), off + 1)
            && Quiet(g, EndState(g, st, [d]))
            && (off == MaxOffset(t) && Rightmost(t) ==> g[d].next == P_NONE)
  {
    ItemStep(g, t, lowkey, st, off);
    ChildWalkIsDirect(g, t, lowkey, st, off);
  }

  /** The downlinks of an accepted page are consecutive pages of the child level. */
  lemma {:induction false} ItemsLinked(g: Graph, t: BtPage, lowkey: MaybeTuple, st: ChildState, off: nat)
    requires Settled(g, t.level) && !t.leaf && SoundDownlinks(g, t) && Quiet(g, st)
    requires FirstDataKey(t) <= off <= MaxOffset(t) && ItemsLoop(g, t, lowkey, st, off).Pass?
    ensures var ds := DownlinksFrom(t, off);
            && |ds| > 0 && Linked(g, t.level, st, ds)
            && (Rightmost(t) ==> g[ds[|ds| - 1]].next == P_NONE)
            && Quiet(g, EndState(g, st, ds))
            && (!Rightmost(t) ==> ItemsLoop(g, t, lowkey, st, off) == Pass(EndState(g, st, ds)))
    decreases MaxOffset(t) + 1 - off
  {
    DownlinkStep(g, t, lowkey, st, off);
    var d := Line(t, off).downlink;
    if off == MaxOffset(t) {
      assert DownlinksFrom(t, off) == [d];
    } else {
      var st' := EndState(g, st, [d]);
      var rest := DownlinksFrom(t, off + 1);
      ItemsLinked(g, t, lowkey, st', off + 1);
      LinkedJoin(g, t.level, st, [d], rest);
      assert DownlinksFrom(t, off) == [d] + rest;
      assert ([d] + rest)[|rest|] == rest[|rest| - 1];
    }
  }

  lemma {:induction false} ItemsKeyed(g: Graph, t: BtPage, lowkey: MaybeTuple, st: ChildState, off: nat, o: nat)
    requires Settled(g, t.level) && !t.leaf && SoundDownlinks(g, t) && Quiet(g, st)
    requires FirstDataKey(t) <= off <= o <= MaxOffset(t) && ItemsLoop(g, t, lowkey, st, off).Pass?
    ensures KeyedTo(g, t, o) && g[Line(t, o).downlink].prev != Line(t, o).downlink
    ensures FirstReal(t) <= o ==> AllAbove(g[Line(t, o).downlink], Line(t, o).key)
    decreases o - off
  {
    DownlinkStep(g, t, lowkey, st, off);
    if off == o {
      ItemStep(g, t, lowkey, st, off);
    } else {
      ItemsKeyed(g, t, lowkey, EndState(g, st, [Line(t, off).downlink]), off + 1, o);
    }
  }

  // ----- The whole level

  /** The checks of one page of the level, read as facts about its downlinks. */
  lemma VisitedPageLinked(g: Graph, level: Level, w: Walk)
    requires level.level >= 1 && Settled(g, level.level) && w.current in g && w.current != P_NONE
    requires Quiet(g, w.st) && !g[w.current].halfDead && VisitPage(g, level, w).Pass?
    ensures var t := g[w.current];
            var ds := DownlinksFrom(t, FirstDataKey(t));
            && t.level == level.level && !t.leaf && SoundDownlinks(g, t)
            && |ds| > 0 && Linked(g, level.level, w.st, ds) && Quiet(g, EndState(g, w.st, ds))
            && (Rightmost(t) ==> g[ds[|ds| - 1]].next == P_NONE)
            && (!Rightmost(t) ==> VisitPage(g, level, w).value.1 == EndState(g, w.st, ds))
            && (w.nextLeft == INVALID_BLOCK ==> VisitPage(g, level, w).value.0 == ds[0])
            && (w.nextLeft != INVALID_BLOCK ==> VisitPage(g, level, w).value.0 == w.nextLeft)
  {
    var t := g[w.current];
    assert LiveAt(g, w.current, level.level);
    ItemsLinked(g, t, w.lowkey, w.st, FirstDataKey(t));
  }

  lemma {:induction false} AcceptedLoopLinked(g: Graph, level: Level, w: Walk, unseen: set<nat>)
    requires level.level >= 1 && Settled(g, level.level) && w.current != P_NONE && Quiet(g, w.st)
    requires NoHalfDead(g, w.current, unseen) && LevelLoop(g, level, w, unseen).Accepted?
    ensures var ds := ChainDownlinks(g, Chain(g, w.current, unseen));
            && |ds| > 0 && Linked(g, level.level, w.st, ds) && g[ds[|ds| - 1]].next == P_NONE
            && LevelLoop(g, level, w, unseen).nextLeft == if w.nextLeft == INVALID_BLOCK then ds[0] else w.nextLeft
    decreases unseen
  {
    ChainSteps(g, w.current, unseen);
    VisitedPageLinked(g, level, w);
    var t := g[w.current];
    var ds := DownlinksFrom(t, FirstDataKey(t));
    var chain := Chain(g, w.current, unseen);
    assert chain[0] == w.current;
    if Rightmost(t) {
      LastOfChain(g, w.current, unseen);
      assert ChainDownlinks(g, chain) == ds + ChainDownlinks(g, []);
    } else {
      var w' := NextWalk(t, w, VisitPage(g, level, w).value);
      AcceptedLoopLinked(g, level, w', unseen - {w.current});
      var rest := Chain(g, t.next, unseen - {w.current});
      assert chain == [w.current] + rest;
      PageAndRest(g, level.level, w.st, w.current, rest);
    }
  }

  /** A page's downlinks followed by those of the pages after it. */
  lemma PageAndRest(g: Graph, level: nat, st: ChildState, b: nat, rest: seq<nat>)
    requires b in g && forall c :: c in rest ==> c in g
    requires var ds := DownlinksFrom(g[b], FirstDataKey(g[b]));
             ds != [] && Linked(g, level, st, ds) && Linked(g, level, EndState(g, st, ds), ChainDownlinks(g, rest))
    requires var more := ChainDownlinks(g, rest); more != [] && g[more[|more| - 1]].next == P_NONE
    ensures var all := ChainDownlinks(g, [b] + rest);
            && all != [] && Linked(g, level, st, all) && g[all[|all| - 1]].next == P_NONE
            && all[0] == DownlinksFrom(g[b], FirstDataKey(g[b]))[0]
  {
    var chain := [b] + rest;
    assert chain[0] == b && chain[1..] == rest;
    LinkedJoin(g, level, st, DownlinksFrom(g[b], FirstDataKey(g[b])), ChainDownlinks(g, rest));
  }

  /** A linked sequence that ends at a rightmost page repeats no page. */
  lemma {:induction false} LinkedDistinct(g: Graph, ds: seq<nat>, i: nat, j: nat)
    requires forall k :: 0 <= k < |ds| ==> ds[k] in g && ds[k] != P_NONE
    requires forall k :: 1 <= k < |ds| ==> g[ds[k - 1]].next == ds[k]
    requires 0 <= i < j < |ds| && g[ds[|ds| - 1]].next == P_NONE
    ensures ds[i] != ds[j]
    decreases |ds| - j
  {
    assert g[ds[i]].next == ds[i + 1];
    if j + 1 < |ds| {
      LinkedDistinct(g, ds, i + 1, j + 1);
      assert g[ds[j]].next == ds[j + 1];
    }
  }

  lemma {:induction false} LinkedIsChain(g: Graph, ds: seq<nat>, unseen: set<nat>)
    requires |ds| > 0
    requires forall k :: 0 <= k < |ds| ==> ds[k] in g && ds[k] != P_NONE && ds[k] in unseen
    requires forall k :: 1 <= k < |ds| ==> g[ds[k - 1]].next == ds[k]
    requires g[ds[|ds| - 1]].next == P_NONE
    ensures Chain(g, ds[0], unseen) == ds
    decreases |ds|
  {
    if |ds| == 1 {
      assert Chain(g, P_NONE, unseen - {ds[0]}) == [];
    } else {
      forall k | 1 <= k < |ds| ensures ds[k] != ds[0] {
        LinkedDistinct(g, ds, 0, k);
      }
      LinkedIsChain(g, ds[1..], unseen - {ds[0]});
    }
  }

  /** A chain that runs through a linked sequence meets no invalid link. */
  lemma {:induction false} ChainMeetsNoInvalidLink(g: Graph, ds: seq<nat>, unseen: set<nat>, i: nat)
    requires |ds| > 0 && Chain(g, ds[0], unseen) == ds && i + 1 < |ds|
    ensures g[ds[i]].next != INVALID_BLOCK
    decreases i
  {
    assert ds == [ds[0]] + Chain(g, g[ds[0]].next, unseen - {ds[0]});
    assert ds[1..] == Chain(g, g[ds[0]].next, unseen - {ds[0]});
    if i > 0 {
      var m: nat := i - 1;
      ChainMeetsNoInvalidLink(g, ds[1..], unseen - {ds[0]}, m);
    }
  }

  /** Lockstep. If an internal level is accepted, its downlinks are live pages one level
      down; each is where the right link before it leads, or a new left end where that link
      is the invalid block number. They are exactly the level below, the chain of right links
      from a left end to a rightmost page with each page once, if and only if no such link
      is invalid. */
  lemma Lockstep(g: Graph, level: Level)
    requires level.level >= 1 && level.leftmost != P_NONE && Settled(g, level.level)
    requires NoHalfDead(g, level.leftmost, g.Keys) && CheckLevel(g, level).Accepted?
    ensures var ds := ChainDownlinks(g, Chain(g, level.leftmost, g.Keys));
            var first := CheckLevel(g, level).nextLeft;
            && |ds| > 0 && ds[0] == first && Linked(g, level.level, CHILD_START, ds)
            && LeftEnd(g, first) && g[ds[|ds| - 1]].next == P_NONE
            && (ds == Chain(g, first, g.Keys) <==> forall d :: d in ds ==> g[d].next != INVALID_BLOCK)
  {
    AcceptedLoopLinked(g, level, StartWalk(level), g.Keys);
    var ds := ChainDownlinks(g, Chain(g, level.leftmost, g.Keys));
    if forall d :: d in ds ==> g[d].next != INVALID_BLOCK {
      LinkedIsChain(g, ds, g.Keys);
    }
    if ds == Chain(g, ds[0], g.Keys) {
      forall d | d in ds ensures g[d].next != INVALID_BLOCK {
        var i :| 0 <= i < |ds| && ds[i] == d;
        if i + 1 < |ds| {
          ChainMeetsNoInvalidLink(g, ds, g.Keys, i);
        }
      }
    }
  }

  /** Each right link leads to the next page of the sequence or is invalid. */
  predicate InvalidOrNext(g: Graph, ds: seq<nat>) {
    && (forall j :: 0 <= j < |ds| ==> ds[j] in g && ds[j] != P_NONE)
    && (forall j :: 1 <= j < |ds| ==> g[ds[j - 1]].next == INVALID_BLOCK || g[ds[j - 1]].next == ds[j])
  }

  /** A linked sequence whose start is the start of an accepted walk has no invalid link. */
  lemma {:induction false} AcceptedMeetsNoInvalidLink(g: Graph, level: Level, w: Walk, unseen: set<nat>, ds: seq<nat>, i: nat)
    requires LevelLoop(g, level, w, unseen).Accepted?
    requires i < |ds| && ds[0] == w.current && InvalidOrNext(g, ds)
    ensures g[ds[i]].next != INVALID_BLOCK
    decreases i
  {
    var t := g[w.current];
    assert i > 0 ==> g[ds[1 - 1]].next == INVALID_BLOCK || g[ds[1 - 1]].next == ds[1];
    if t.next != P_NONE {
      var w' := NextWalk(t, w, VisitPage(g, level, w).value);
      assert t.next != INVALID_BLOCK;
      if i > 0 {
        var m: nat := i - 1;
        AcceptedMeetsNoInvalidLink(g, level, w', unseen - {w.current}, ds[1..], m);
      }
    }
  }

  lemma AcceptedHasNoInvalidLink(g: Graph, below: Level, ds: seq<nat>)
    requires CheckLevel(g, below).Accepted? && |ds| > 0 && ds[0] == below.leftmost
    requires Linked(g, below.level + 1, CHILD_START, ds)
    ensures forall i :: 0 <= i < |ds| ==> g[ds[i]].next != INVALID_BLOCK
    ensures forall i :: 1 <= i < |ds| ==> g[ds[i - 1]].next == ds[i]
  {
    assert InvalidOrNext(g, ds);
    forall i | 0 <= i < |ds| ensures g[ds[i]].next != INVALID_BLOCK {
      AcceptedMeetsNoInvalidLink(g, below, StartWalk(below), g.Keys, ds, i);
    }
  }

  /** Two accepted levels, one above the other, the upper one settled. */
  ghost predicate TwoLevels(g: Graph, level: Level) {
    && level.level >= 1 && level.leftmost != P_NONE && Settled(g, level.level)
    && NoHalfDead(g, level.leftmost, g.Keys) && CheckLevel(g, level).Accepted?
    && CheckLevel(g, Below(g, level)).Accepted?
  }

  function Below(g: Graph, level: Level): Level
    requires level.level >= 1 && CheckLevel(g, level).Accepted?
  {
    Level(level.level - 1, CheckLevel(g, level).nextLeft, false)
  }

  /** So once the level below is accepted too, the downlinks are that level, page by page,
      and no hypothesis about invalid links is needed. */
  lemma LockstepOfTwo(g: Graph, level: Level)
    requires TwoLevels(g, level)
    ensures var ds := ChainDownlinks(g, Chain(g, level.leftmost, g.Keys));
            && ds == Chain(g, Below(g, level).leftmost, g.Keys)
            && (forall i :: 0 <= i < |ds| ==> LiveAt(g, ds[i], level.level - 1))
            && (forall i :: 1 <= i < |ds| ==> g[ds[i - 1]].next == ds[i])
            && (forall i, j :: 0 <= i < j < |ds| ==> ds[i] != ds[j])
  {
    Lockstep(g, level);
    var ds := ChainDownlinks(g, Chain(g, level.leftmost, g.Keys));
    AcceptedHasNoInvalidLink(g, Below(g, level), ds);
    forall i, j | 0 <= i < j < |ds| ensures ds[i] != ds[j] {
      LinkedDistinct(g, ds, i, j);
    }
  }

  // ----- Separators

  /** The child that a downlink leads to, against the pivots around the downlink. */
  predicate Separated(g: Graph, t: BtPage, o: nat)
    requires 1 <= o <= MaxOffset(t)
  {
    && KeyedTo(g, t, o) && g[Line(t, o).downlink].prev != Line(t, o).downlink
    && (FirstReal(t) <= o ==> AllAbove(g[Line(t, o).downlink], Line(t, o).key))
  }

  predicate PageSeparated(g: Graph, t: BtPage) {
    && FirstDataKey(t) <= MaxOffset(t)
    && forall o :: FirstDataKey(t) <= o <= MaxOffset(t) ==> Separated(g, t, o)
  }

  lemma VisitedPageSeparated(g: Graph, level: Level, w: Walk)
    requires level.level >= 1 && Settled(g, level.level) && w.current in g && w.current != P_NONE
    requires Quiet(g, w.st) && !g[w.current].halfDead && VisitPage(g, level, w).Pass?
    ensures PageSeparated(g, g[w.current])
  {
    VisitedPageLinked(g, level, w);
    var t := g[w.current];
    forall o | FirstDataKey(t) <= o <= MaxOffset(t) ensures Separated(g, t, o) {
      ItemsKeyed(g, t, w.lowkey, w.st, FirstDataKey(t), o);
    }
  }

  lemma {:induction false} AcceptedLoopSeparated(g: Graph, level: Level, w: Walk, unseen: set<nat>)
    requires level.level >= 1 && Settled(g, level.level) && w.current != P_NONE && Quiet(g, w.st)
    requires NoHalfDead(g, w.current, unseen) && LevelLoop(g, level, w, unseen).Accepted?
    ensures forall b :: b in Chain(g, w.current, unseen) ==> PageSeparated(g, g[b])
    decreases unseen
  {
    ChainSteps(g, w.current, unseen);
    VisitedPageSeparated(g, level, w);
    var t := g[w.current];
    if Rightmost(t) {
      LastOfChain(g, w.current, unseen);
    } else {
      VisitedPageLinked(g, level, w);
      AcceptedLoopSeparated(g, level, NextWalk(t, w, VisitPage(g, level, w).value), unseen - {w.current});
    }
  }

  /** Every non-rightmost child's high key is the pivot after its downlink, or the
      parent's own high key; and every real item of a child lies above its downlink's
      pivot, unless that is the negative-infinity item of its page. */
  lemma SeparatorsMatch(g: Graph, level: Level, n: nat, o: nat)
    requires level.level >= 1 && level.leftmost != P_NONE && Settled(g, level.level)
    requires NoHalfDead(g, level.leftmost, g.Keys) && CheckLevel(g, level).Accepted?
    requires n < |Chain(g, level.leftmost, g.Keys)|
    requires var t := g[Chain(g, level.leftmost, g.Keys)[n]]; FirstDataKey(t) <= o <= MaxOffset(t)
    ensures Separated(g, g[Chain(g, level.leftmost, g.Keys)[n]], o)
  {
    AcceptedLoopSeparated(g, level, StartWalk(level), g.Keys);
    assert PageSeparated(g, g[Chain(g, level.leftmost, g.Keys)[n]]);
  }

  lemma {:induction false} PositionOfDownlink(g: Graph, chain: seq<nat>, n: nat, o: nat) returns (p: nat)
    requires (forall b :: b in chain ==> b in g) && n < |chain|
    requires forall b :: b in chain ==> FirstDataKey(g[b]) <= MaxOffset(g[b])
    requires FirstDataKey(g[chain[n]]) <= o <= MaxOffset(g[chain[n]])
    ensures var ds := ChainDownlinks(g, chain);
            && p < |ds| && ds[p] == Line(g[chain[n]], o).downlink
            && (n + 1 < |chain| || o < MaxOffset(g[chain[n]]) ==> p + 1 < |ds|)
    decreases n
  {
    var t := g[chain[0]];
    if n == 0 {
      p := o - FirstDataKey(t);
      DownlinksIndexed(t, FirstDataKey(t), o);
      if |chain| > 1 {
        assert chain[1..][0] == chain[1];
        DownlinksIndexed(g[chain[1]], FirstDataKey(g[chain[1]]), FirstDataKey(g[chain[1]]));
        assert ChainDownlinks(g, chain[1..]) != [];
      }
    } else {
      var q := PositionOfDownlink(g, chain[1..], n - 1, o);
      p := |DownlinksFrom(t, FirstDataKey(t))| + q;
    }
  }

  lemma {:induction false} DownlinksIndexed(t: BtPage, from: nat, o: nat)
    requires 1 <= from <= o <= MaxOffset(t)
    ensures |DownlinksFrom(t, from)| == MaxOffset(t) + 1 - from
    ensures DownlinksFrom(t, from)[o - from] == Line(t, o).downlink
    decreases MaxOffset(t) - from
  {
    if from < MaxOffset(t) {
      DownlinksIndexed(t, from + 1, if from < o then o else from + 1);
    }
  }

  /** o is the offset of a downlink on the n-th page of the level. */
  ghost predicate HasDownlink(g: Graph, level: Level, n: nat, o: nat) {
    && n < |Chain(g, level.leftmost, g.Keys)|
    && var t := g[Chain(g, level.leftmost, g.Keys)[n]]; FirstDataKey(t) <= o <= MaxOffset(t)
  }

  lemma NonEmptyPages(g: Graph, level: Level)
    requires TwoLevels(g, level)
    ensures forall b :: b in Chain(g, level.leftmost, g.Keys) ==> FirstDataKey(g[b]) <= MaxOffset(g[b])
  {
    AcceptedLoopSeparated(g, level, StartWalk(level), g.Keys);
  }

  /** A downlink leads to a live page of the level below, and to the rightmost one only if it
      is the last downlink of the level. */
  lemma DownlinkLeadsBelow(g: Graph, level: Level, n: nat, o: nat) returns (m: nat)
    requires TwoLevels(g, level) && HasDownlink(g, level, n, o)
    ensures var chain, below := Chain(g, level.leftmost, g.Keys), Chain(g, Below(g, level).leftmost, g.Keys);
            && m < |below| && below[m] == Line(g[chain[n]], o).downlink && !Ignore(g[below[m]])
            && (n + 1 < |chain| || o < MaxOffset(g[chain[n]]) ==> !Rightmost(g[below[m]]))
  {
    LockstepOfTwo(g, level);
    NonEmptyPages(g, level);
    var chain := Chain(g, level.leftmost, g.Keys);
    m := PositionOfDownlink(g, chain, n, o);
    var ds := ChainDownlinks(g, chain);
    assert LiveAt(g, ds[m], level.level - 1);
    if m + 1 < |ds| {
      assert g[ds[m + 1 - 1]].next == ds[m + 1];
    }
  }

  /** The key is at most the pivot that follows the downlink: the next one of the page, or
      after the last one the page's high key, which a rightmost page does not have. */
  predicate Within(t: BtPage, o: nat, key: int)
    requires 1 <= o <= MaxOffset(t)
  {
    if o < MaxOffset(t) then key <= Line(t, o + 1).key else !Rightmost(t) ==> key <= t.lines[0].key
  }

  /** When two neighbouring levels are both accepted, every real item of a child lies
      between the pivots around its downlink. The lower bound is missing only for the
      first downlink of a page. */
  lemma KeySpace(g: Graph, level: Level, n: nat, o: nat, i: nat)
    requires TwoLevels(g, level) && HasDownlink(g, level, n, o)
    requires var t := g[Chain(g, level.leftmost, g.Keys)[n]];
             && Line(t, o).downlink in g
             && FirstReal(g[Line(t, o).downlink]) <= i <= MaxOffset(g[Line(t, o).downlink])
    ensures var t := g[Chain(g, level.leftmost, g.Keys)[n]];
            var k := Line(g[Line(t, o).downlink], i).key;
            (FirstReal(t) <= o ==> Line(t, o).key < k) && Within(t, o, k)
  {
    SeparatorsMatch(g, level, n, o);
    var m := DownlinkLeadsBelow(g, level, n, o);
    AcceptedItemOrder(g, Below(g, level), m, i);
    OnlyLastPageIsRightmost(g, level, n);
  }

  lemma OnlyLastPageIsRightmost(g: Graph, level: Level, n: nat)
    requires TwoLevels(g, level) && n < |Chain(g, level.leftmost, g.Keys)|
    ensures var c := Chain(g, level.leftmost, g.Keys); Rightmost(g[c[n]]) <==> n + 1 == |c|
  {
    var c := Chain(g, level.leftmost, g.Keys);
    AcceptedLevelIsList(g, level);
    if n + 1 < |c| {
      assert g[c[n + 1 - 1]].next == c[n + 1];
    }
  }

  lemma {:induction false} ItemsClimb(t: BtPage, i: nat, j: nat)
    requires FirstReal(t) <= i <= j <= MaxOffset(t)
    requires forall o :: FirstReal(t) <= o <= MaxOffset(t) ==> ItemOrderOk(t, o)
    ensures Line(t, i).key <= Line(t, j).key
    decreases j - i
  {
    if i < j {
      assert ItemOrderOk(t, i);
      ItemsClimb(t, i + 1, j);
    }
  }

  /** A page in order lies wholly above a key if and only if its first real item does. */
  lemma AboveIffFirstIs(c: BtPage, key: int)
    requires forall o :: FirstReal(c) <= o <= MaxOffset(c) ==> ItemOrderOk(c, o)
    ensures AllAbove(c, key) <==> (FirstReal(c) <= MaxOffset(c) ==> key < Line(c, FirstReal(c)).key)
  {
    if FirstReal(c) <= MaxOffset(c) && key < Line(c, FirstReal(c)).key {
      forall o | FirstReal(c) <= o <= MaxOffset(c) ensures key < Line(c, o).key {
        ItemsClimb(c, FirstReal(c), o);
      }
    }
  }

  /** The last downlink of one page and the first of the next are neighbours below. */
  lemma {:induction false} DownlinksMeet(g: Graph, chain: seq<nat>, n: nat) returns (p: nat)
    requires (forall b :: b in chain ==> b in g) && n + 1 < |chain|
    requires forall b :: b in chain ==> FirstDataKey(g[b]) <= MaxOffset(g[b])
    ensures var ds, left, t := ChainDownlinks(g, chain), g[chain[n]], g[chain[n + 1]];
            && MaxOffset(left) >= 1 && FirstDataKey(t) <= MaxOffset(t)
            && p + 1 < |ds| && ds[p] == Line(left, MaxOffset(left)).downlink
            && ds[p + 1] == Line(t, FirstDataKey(t)).downlink
    decreases n
  {
    var t := g[chain[0]];
    DownlinksIndexed(t, FirstDataKey(t), MaxOffset(t));
    if n == 0 {
      p := |DownlinksFrom(t, FirstDataKey(t))| - 1;
      var q := PositionOfDownlink(g, chain[1..], 0, FirstDataKey(g[chain[1]]));
      DownlinksIndexed(g[chain[1]], FirstDataKey(g[chain[1]]), FirstDataKey(g[chain[1]]));
      assert chain[1..][0] == chain[1];
    } else {
      var q := DownlinksMeet(g, chain[1..], n - 1);
      p := |DownlinksFrom(t, FirstDataKey(t))| + q;
    }
  }

  /** The last child of one page and the first child of the next are neighbours, and the
      high key between them is the high key of the first page. */
  lemma CousinsMeet(g: Graph, level: Level, n: nat)
    requires TwoLevels(g, level) && n + 1 < |Chain(g, level.leftmost, g.Keys)|
    ensures var chain := Chain(g, level.leftmost, g.Keys);
            var left, t := g[chain[n]], g[chain[n + 1]];
            && FirstDataKey(left) <= MaxOffset(left) && FirstDataKey(t) <= MaxOffset(t) && !Rightmost(left)
            && Line(left, MaxOffset(left)).downlink in g && Line(t, FirstDataKey(t)).downlink in g
            && var b := g[Line(left, MaxOffset(left)).downlink];
               b.next == Line(t, FirstDataKey(t)).downlink && MaxOffset(b) >= 1 && b.lines[0].key == left.lines[0].key
  {
    var chain := Chain(g, level.leftmost, g.Keys);
    NonEmptyPages(g, level);
    LockstepOfTwo(g, level);
    var p := DownlinksMeet(g, chain, n);
    var ds := ChainDownlinks(g, chain);
    assert g[ds[p + 1 - 1]].next == ds[p + 1];
    assert LiveAt(g, ds[p], level.level - 1) && LiveAt(g, ds[p + 1], level.level - 1);
    OnlyLastPageIsRightmost(g, level, n);
    SeparatorsMatch(g, level, n, MaxOffset(g[chain[n]]));
  }

  /** The missing bound, exactly. The pivot of a page's first downlink is kept as the high key
      of the page to the left, which is also the high key of the child to the left. The first
      child lies wholly above it if and only if its first real item does. */
  lemma FirstChildBoundIff(g: Graph, level: Level, n: nat)
    requires TwoLevels(g, level) && n + 1 < |Chain(g, level.leftmost, g.Keys)|
    ensures var chain := Chain(g, level.leftmost, g.Keys);
            var left, t := g[chain[n]], g[chain[n + 1]];
            && MaxOffset(left) >= 1 && FirstDataKey(t) <= MaxOffset(t) && Line(t, FirstDataKey(t)).downlink in g
            && var c, pivot := g[Line(t, FirstDataKey(t)).downlink], left.lines[0].key;
               AllAbove(c, pivot) <==> (FirstReal(c) <= MaxOffset(c) ==> pivot < Line(c, FirstReal(c)).key)
  {
    CousinsMeet(g, level, n);
    var chain := Chain(g, level.leftmost, g.Keys);
    var t := g[chain[n + 1]];
    var m := DownlinkLeadsBelow(g, level, n + 1, FirstDataKey(t));
    var c := g[Line(t, FirstDataKey(t)).downlink];
    forall o | FirstReal(c) <= o <= MaxOffset(c) ensures ItemOrderOk(c, o) {
      AcceptedItemOrder(g, Below(g, level), m, o);
    }
    AboveIffFirstIs(c, g[chain[n]].lines[0].key);
  }
}
