/** The level check has no false alarms: where no split or deletion was interrupted on the
    level below, a level is accepted exactly if it is healthy. */
module BtreeComplete {
  import opened BtreeSpec
  import opened BtreeWalk
  import opened BtreeLockstep

  /** A live page with its items in order, bounded by the high key, and sound links. */
  predicate PageHealthy(g: Graph, t: BtPage) {
    && !Ignore(t) && (!Rightmost(t) ==> MaxOffset(t) >= 1)
    && (forall o :: FirstReal(t) <= o <= MaxOffset(t) ==> ItemOrderOk(t, o))
    && (!t.leaf ==> forall o :: FirstDataKey(t) <= o <= MaxOffset(t) ==> Separated(g, t, o))
  }

  /** The last real item of the left page is below the first of the right page. */
  predicate InOrderAcross(t: BtPage, u: BtPage) {
    FirstReal(t) <= MaxOffset(t) && FirstReal(u) <= MaxOffset(u) ==>
      Line(t, MaxOffset(t)).key < Line(u, FirstReal(u)).key
  }

  /** A doubly linked list of healthy pages, in order from page to page, from a left end to a
      rightmost page, starting at the root if it is the root level, whose downlinks are pages
      of the level below, one after the other. */
  ghost predicate LevelHealthy(g: Graph, level: Level, c: seq<nat>) {
    && |c| > 0 && c[0] == level.leftmost && DoublyLinked(g, level.level, c)
    && (forall i :: 0 <= i < |c| ==> c[i] != P_NONE && PageHealthy(g, g[c[i]]))
    && (forall i :: 1 <= i < |c| ==> InOrderAcross(g[c[i - 1]], g[c[i]]))
    && LeftEnd(g, c[0]) && g[c[|c| - 1]].next == P_NONE
    && (level.trueRoot ==> g[c[0]].root || g[c[0]].incompleteSplit)
    && (level.level > 0 ==> LevelLinked(g, level.level, CHILD_START, c))
  }

  ghost predicate LevelLinked(g: Graph, level: nat, st: ChildState, c: seq<nat>)
    requires forall i :: 0 <= i < |c| ==> c[i] in g
  {
    var ds := ChainDownlinks(g, c);
    ds != [] && Linked(g, level, st, ds) && g[ds[|ds| - 1]].next == P_NONE
  }

  // ----- A healthy level is accepted

  lemma ChildPasses(g: Graph, t: BtPage, lowkey: MaybeTuple, st: ChildState, off: nat)
    requires Settled(g, t.level) && !t.leaf && !st.incompleteSplit && FirstDataKey(t) <= off <= MaxOffset(t)
    requires Separated(g, t, off) && Linked(g, t.level, st, [Line(t, off).downlink])
    ensures ChildHighKey(g, t, lowkey, st, off) == Pass(EndState(g, st, [Line(t, off).downlink]))
  {
    var d := Line(t, off).downlink;
    assert [d][0] == d;
    LeftmostIff(g, d);
    assert LiveAt(g, d, t.level - 1);
    assert ChildPageOk(g, t, lowkey, st, off, d, d, false, true);
  }

  lemma LinkedSplit(g: Graph, level: nat, st: ChildState, a: seq<nat>, b: seq<nat>)
    requires a != [] && Linked(g, level, st, a + b)
    ensures Linked(g, level, st, a) && Linked(g, level, EndState(g, st, a), b)
  {
    var ds := a + b;
    forall i | 0 <= i < |a| ensures a[i] == ds[i] {
    }
    forall i | 0 <= i < |b| ensures b[i] == ds[|a| + i] {
    }
    forall i | 1 <= i < |b| ensures Follows(g, ChildState(g[b[i - 1]].next, false), b[i]) {
      assert Follows(g, ChildState(g[ds[|a| + i - 1]].next, false), ds[|a| + i]);
    }
  }

  lemma {:induction false} LeafItemsPass(g: Graph, t: BtPage, lowkey: MaybeTuple, st: ChildState, off: nat)
    requires t.leaf && FirstDataKey(t) <= off && PageInOrder(g, t, off)
    ensures ItemsLoop(g, t, lowkey, st, off) == Pass(st)
    decreases MaxOffset(t) + 1 - off
  {
    if off <= MaxOffset(t) {
      assert ItemOrderOk(t, off);
      LeafItemsPass(g, t, lowkey, st, off + 1);
    }
  }

  lemma {:induction false} InnerItemsPass(g: Graph, t: BtPage, lowkey: MaybeTuple, st: ChildState, off: nat)
    requires Settled(g, t.level) && !t.leaf && !st.incompleteSplit && FirstDataKey(t) <= off <= MaxOffset(t)
    requires PageHealthy(g, t) && PageInOrder(g, t, FirstDataKey(t)) && Linked(g, t.level, st, DownlinksFrom(t, off))
    requires Rightmost(t) ==> var d := Line(t, MaxOffset(t)).downlink; d in g && g[d].next == P_NONE
    ensures ItemsLoop(g, t, lowkey, st, off) ==
            Pass(if Rightmost(t) then CHILD_START else EndState(g, st, DownlinksFrom(t, off)))
    decreases MaxOffset(t) + 1 - off
  {
    var d, rest := Line(t, off).downlink, DownlinksFrom(t, off + 1);
    var st' := InnerOffset(g, t, lowkey, st, off);
    if off == MaxOffset(t) {
      assert DownlinksFrom(t, off) == [d];
      InnerEnd(g, t, lowkey, st');
    } else {
      InnerItemsPass(g, t, lowkey, st', off + 1);
      LinkedJoin(g, t.level, st, [d], rest);
    }
  }

  /** One healthy downlink: the loop goes on behind it. */
  lemma InnerOffset(g: Graph, t: BtPage, lowkey: MaybeTuple, st: ChildState, off: nat) returns (st': ChildState)
    requires Settled(g, t.level) && !t.leaf && !st.incompleteSplit && FirstDataKey(t) <= off <= MaxOffset(t)
    requires PageHealthy(g, t) && PageInOrder(g, t, FirstDataKey(t)) && Linked(g, t.level, st, DownlinksFrom(t, off))
    ensures var d := Line(t, off).downlink;
            && Linked(g, t.level, st, [d]) && st' == EndState(g, st, [d])
            && DownlinksFrom(t, off) == [d] + DownlinksFrom(t, off + 1)
            && Linked(g, t.level, st', DownlinksFrom(t, off + 1))
            && ItemsLoop(g, t, lowkey, st, off) == ItemsLoop(g, t, lowkey, st', off + 1)
  {
    var d, rest := Line(t, off).downlink, DownlinksFrom(t, off + 1);
    assert Separated(g, t, off);
    assert DownlinksFrom(t, off) == [d] + rest;
    LinkedSplit(g, t.level, st, [d], rest);
    ChildPasses(g, t, lowkey, st, off);
    InnerItem(g, t, lowkey, st, off);
    st' := EndState(g, st, [d]);
  }

  lemma InnerEnd(g: Graph, t: BtPage, lowkey: MaybeTuple, st: ChildState)
    requires !t.leaf && (Rightmost(t) ==> st.rightlink == P_NONE)
    ensures ItemsLoop(g, t, lowkey, st, MaxOffset(t) + 1) == Pass(if Rightmost(t) then CHILD_START else st)
  {
  }

  /** One offset of an internal page that gives no cause for complaint. */
  lemma InnerItem(g: Graph, t: BtPage, lowkey: MaybeTuple, st: ChildState, off: nat)
    requires !t.leaf && FirstDataKey(t) <= off <= MaxOffset(t) && PageHealthy(g, t)
    requires PageInOrder(g, t, FirstDataKey(t))
    requires ChildHighKey(g, t, lowkey, st, off).Pass?
    requires var d := Line(t, off).downlink; d in g ==> !g[d].deleted
    ensures ItemsLoop(g, t, lowkey, st, off) ==
            ItemsLoop(g, t, lowkey, ChildHighKey(g, t, lowkey, st, off).value, off + 1)
  {
    assert Separated(g, t, off);
    if !OffsetIsNegativeInfinity(t, off) {
      assert ItemOrderOk(t, off);
      assert off == MaxOffset(t) ==> RightOrder(g, t, Line(t, off).key) == Pass(());
    }
  }

  /** The rest of the level, from position i: what the walk has to be like for it to pass. */
  ghost predicate OnTrack(g: Graph, level: Level, c: seq<nat>, i: nat, w: Walk)
    requires i < |c| && forall j :: 0 <= j < |c| ==> c[j] in g
  {
    && w.current == c[i] && w.leftcurrent == (if i == 0 then P_NONE else c[i - 1])
    && (i == 0 <==> w.nextLeft == INVALID_BLOCK)
    && (level.level > 0 ==> !w.st.incompleteSplit && LevelLinked(g, level.level, w.st, c[i..]))
  }

  lemma LastDownlink(t: BtPage, off: nat)
    requires 1 <= off <= MaxOffset(t)
    ensures var ds := DownlinksFrom(t, off); |ds| > 0 && ds[|ds| - 1] == Line(t, MaxOffset(t)).downlink
    ensures DownlinksFrom(t, off)[0] == Line(t, off).downlink
    decreases MaxOffset(t) - off
  {
    if off < MaxOffset(t) {
      LastDownlink(t, off + 1);
      assert DownlinksFrom(t, off) == [Line(t, off).downlink] + DownlinksFrom(t, off + 1);
    }
  }

  /** The downlinks of a page and those of the pages after it. */
  lemma PageThenRest(g: Graph, level: nat, st: ChildState, c: seq<nat>, i: nat)
    requires i < |c| && forall j :: 0 <= j < |c| ==> c[j] in g
    requires LevelLinked(g, level, st, c[i..]) && FirstDataKey(g[c[i]]) <= MaxOffset(g[c[i]])
    ensures var t := g[c[i]];
            var ds := DownlinksFrom(t, FirstDataKey(t));
            && ds != [] && Linked(g, level, st, ds)
            && Linked(g, level, EndState(g, st, ds), ChainDownlinks(g, c[i + 1..]))
            && ChainDownlinks(g, c[i..]) == ds + ChainDownlinks(g, c[i + 1..])
  {
    var t := g[c[i]];
    LastDownlink(t, FirstDataKey(t));
    assert c[i..][0] == c[i] && c[i..][1..] == c[i + 1..];
    LinkedSplit(g, level, st, DownlinksFrom(t, FirstDataKey(t)), ChainDownlinks(g, c[i + 1..]));
  }

  /** The page to the right is live, so it is the one its items are compared with. */
  lemma HealthyInOrder(g: Graph, level: Level, c: seq<nat>, i: nat)
    requires LevelHealthy(g, level, c) && i < |c|
    ensures PageInOrder(g, g[c[i]], FirstDataKey(g[c[i]]))
  {
    var t := g[c[i]];
    OnlyLastIsRightmost(g, level, c, i);
    if i + 1 < |c| && FirstReal(t) <= MaxOffset(t) {
      assert g[c[i + 1 - 1]].next == c[i + 1] && InOrderAcross(g[c[i + 1 - 1]], g[c[i + 1]]);
      assert RightPage(g, t.next, g.Keys) == Pass(t.next);
    }
  }

  /** The checks of one healthy page pass. */
  lemma PagePasses(g: Graph, level: Level, c: seq<nat>, i: nat, w: Walk)
    requires Settled(g, level.level) && LevelHealthy(g, level, c) && i < |c| && OnTrack(g, level, c, i, w)
    ensures VisitPage(g, level, w).Pass?
    ensures var t, v := g[c[i]], VisitPage(g, level, w).value;
            var ds := DownlinksFrom(t, FirstDataKey(t));
            && v.0 != INVALID_BLOCK
            && (level.level > 0 ==>
                  Linked(g, level.level, w.st, ds) && (!Rightmost(t) ==> v.1 == EndState(g, w.st, ds)))
  {
    var t := g[c[i]];
    FirstPagePasses(g, level, c, i, w);
    HealthyInOrder(g, level, c, i);
    if t.leaf {
      LeafItemsPass(g, t, w.lowkey, w.st, FirstDataKey(t));
    } else {
      InnerPagePasses(g, level, c, i, w);
    }
  }

  lemma FirstPagePasses(g: Graph, level: Level, c: seq<nat>, i: nat, w: Walk)
    requires Settled(g, level.level) && LevelHealthy(g, level, c) && i < |c| && OnTrack(g, level, c, i, w)
    ensures FirstPage(g, level, w).Pass? && FirstPage(g, level, w).value != INVALID_BLOCK
    ensures g[c[i]].prev == w.leftcurrent || w.leftcurrent == P_NONE
    ensures g[c[i]].level == level.level && c[i] != w.leftcurrent && c[i] != g[c[i]].prev
  {
    var t := g[c[i]];
    LeftmostIff(g, c[i]);
    if i == 0 {
      LeftEndNeighbour(g, c[0]);
    } else {
      assert g[c[i]].prev == c[i - 1];
    }
    if !t.leaf {
      assert Separated(g, t, FirstDataKey(t));
    }
  }

  lemma InnerPagePasses(g: Graph, level: Level, c: seq<nat>, i: nat, w: Walk)
    requires Settled(g, level.level) && LevelHealthy(g, level, c) && i < |c| && OnTrack(g, level, c, i, w)
    requires level.level > 0
    ensures var t := g[c[i]];
            var ds := DownlinksFrom(t, FirstDataKey(t));
            && Linked(g, level.level, w.st, ds)
            && TargetPage(g, t, w.lowkey, w.st) == Pass(if Rightmost(t) then CHILD_START else EndState(g, w.st, ds))
  {
    var t := g[c[i]];
    HealthyInOrder(g, level, c, i);
    PageThenRest(g, level.level, w.st, c, i);
    LastDownlink(t, FirstDataKey(t));
    OnlyLastIsRightmost(g, level, c, i);
    if Rightmost(t) {
      assert c[i + 1..] == [];
      assert ChainDownlinks(g, c[i..]) == DownlinksFrom(t, FirstDataKey(t));
    }
    InnerItemsPass(g, t, w.lowkey, w.st, FirstDataKey(t));
  }

  lemma OnlyLastIsRightmost(g: Graph, level: Level, c: seq<nat>, i: nat)
    requires LevelHealthy(g, level, c) && i < |c|
    ensures Rightmost(g[c[i]]) <==> i == |c| - 1
  {
    if i + 1 < |c| {
      assert g[c[i + 1 - 1]].next == c[i + 1];
    }
  }

  /** The pages from position i on have not been left yet. */
  predicate Ahead(c: seq<nat>, i: nat, unseen: set<nat>) {
    forall j :: i <= j < |c| ==> c[j] in unseen
  }

  lemma StillAhead(g: Graph, level: nat, c: seq<nat>, i: nat, unseen: set<nat>)
    requires DoublyLinked(g, level, c) && i < |c| && Ahead(c, i, unseen)
    ensures c[i] in unseen && Ahead(c, i + 1, unseen - {c[i]})
  {
  }

  lemma {:induction false} LoopAccepts(g: Graph, level: Level, c: seq<nat>, i: nat, w: Walk, unseen: set<nat>)
    requires Settled(g, level.level) && LevelHealthy(g, level, c) && i < |c| && OnTrack(g, level, c, i, w)
    requires Ahead(c, i, unseen)
    ensures LevelLoop(g, level, w, unseen).Accepted?
    decreases |c| - i
  {
    if i + 1 == |c| {
      LastAccepts(g, level, c, i, w, unseen);
    } else {
      var w' := TurnPasses(g, level, c, i, w, unseen);
      StillAhead(g, level.level, c, i, unseen);
      LoopAccepts(g, level, c, i + 1, w', unseen - {c[i]});
    }
  }

  lemma LastAccepts(g: Graph, level: Level, c: seq<nat>, i: nat, w: Walk, unseen: set<nat>)
    requires Settled(g, level.level) && LevelHealthy(g, level, c) && i + 1 == |c| && OnTrack(g, level, c, i, w)
    requires c[i] in unseen
    ensures LevelLoop(g, level, w, unseen).Accepted?
  {
    PagePasses(g, level, c, i, w);
    FirstPagePasses(g, level, c, i, w);
    LoopStep(g, level, w, unseen);
  }

  /** One turn of the level loop over a healthy page. */
  lemma TurnPasses(g: Graph, level: Level, c: seq<nat>, i: nat, w: Walk, unseen: set<nat>) returns (w': Walk)
    requires Settled(g, level.level) && LevelHealthy(g, level, c) && i + 1 < |c| && OnTrack(g, level, c, i, w)
    requires c[i] in unseen
    ensures OnTrack(g, level, c, i + 1, w')
    ensures LevelLoop(g, level, w, unseen) == LevelLoop(g, level, w', unseen - {c[i]})
  {
    PagePasses(g, level, c, i, w);
    FirstPagePasses(g, level, c, i, w);
    OnlyLastIsRightmost(g, level, c, i);
    LoopStep(g, level, w, unseen);
    NextOnTrack(g, level, c, i, w);
    w' := NextWalk(g[c[i]], w, VisitPage(g, level, w).value);
  }

  lemma LoopStep(g: Graph, level: Level, w: Walk, unseen: set<nat>)
    requires w.current in g && w.current in unseen && VisitPage(g, level, w).Pass?
    requires w.current != w.leftcurrent && w.current != g[w.current].prev
    requires !Rightmost(g[w.current]) ==> MaxOffset(g[w.current]) >= 1
    ensures var w' := NextWalk(g[w.current], w, VisitPage(g, level, w).value);
            LevelLoop(g, level, w, unseen) ==
            if Rightmost(g[w.current]) then Accepted(w'.nextLeft) else LevelLoop(g, level, w', unseen - {w.current})
  {
  }

  lemma NextOnTrack(g: Graph, level: Level, c: seq<nat>, i: nat, w: Walk)
    requires Settled(g, level.level) && LevelHealthy(g, level, c) && i + 1 < |c| && OnTrack(g, level, c, i, w)
    requires VisitPage(g, level, w).Pass?
    ensures OnTrack(g, level, c, i + 1, NextWalk(g[c[i]], w, VisitPage(g, level, w).value))
  {
    var t := g[c[i]];
    PagePasses(g, level, c, i, w);
    OnlyLastIsRightmost(g, level, c, i);
    assert g[c[i + 1 - 1]].next == c[i + 1];
    if level.level > 0 {
      PageThenRest(g, level.level, w.st, c, i);
      RestIsLinked(g, level.level, w.st, c, i);
    }
  }

  lemma RestIsLinked(g: Graph, level: nat, st: ChildState, c: seq<nat>, i: nat)
    requires i + 1 < |c| && forall j :: 0 <= j < |c| ==> c[j] in g
    requires LevelLinked(g, level, st, c[i..]) && FirstDataKey(g[c[i]]) <= MaxOffset(g[c[i]])
    requires FirstDataKey(g[c[i + 1]]) <= MaxOffset(g[c[i + 1]])
    ensures var ds := DownlinksFrom(g[c[i]], FirstDataKey(g[c[i]]));
            Linked(g, level, st, ds) && LevelLinked(g, level, EndState(g, st, ds), c[i + 1..])
  {
    PageThenRest(g, level, st, c, i);
    var u := g[c[i + 1]];
    LastDownlink(u, FirstDataKey(u));
    assert c[i + 1..][0] == c[i + 1];
    var all, rest := ChainDownlinks(g, c[i..]), ChainDownlinks(g, c[i + 1..]);
    assert rest != [] && all[|all| - 1] == rest[|rest| - 1];
  }

  // ----- An accepted level is healthy

  /** The item loop has compared the last item with the live page to the right. */
  lemma AcceptedAcross(g: Graph, t: BtPage)
    requires PageInOrder(g, t, FirstDataKey(t)) && t.next in g && !Rightmost(t) && !Ignore(g[t.next])
    ensures InOrderAcross(t, g[t.next])
  {
    assert RightPage(g, t.next, g.Keys) == Pass(t.next);
  }

  lemma AcceptedPageInOrder(g: Graph, level: Level, n: nat)
    requires CheckLevel(g, level).Accepted? && NoHalfDead(g, level.leftmost, g.Keys)
    requires n < |Chain(g, level.leftmost, g.Keys)|
    ensures var t := g[Chain(g, level.leftmost, g.Keys)[n]];
            && t.level == level.level && !Ignore(t) && (!Rightmost(t) ==> MaxOffset(t) >= 1)
            && PageInOrder(g, t, FirstDataKey(t))
  {
    var v := AcceptedPagePasses(g, level, StartWalk(level), g.Keys, n);
    var t := g[v.current];
    assert v.current in Chain(g, level.leftmost, g.Keys);
    ItemsLoopOrders(g, t, v.lowkey, v.st, FirstDataKey(t));
  }

  lemma AcceptedPageHealthy(g: Graph, level: Level, n: nat)
    requires Settled(g, level.level) && level.leftmost != P_NONE && CheckLevel(g, level).Accepted?
    requires NoHalfDead(g, level.leftmost, g.Keys) && n < |Chain(g, level.leftmost, g.Keys)|
    ensures var t := g[Chain(g, level.leftmost, g.Keys)[n]];
            PageHealthy(g, t) && PageInOrder(g, t, FirstDataKey(t))
  {
    AcceptedPageInOrder(g, level, n);
    if level.level > 0 {
      AcceptedLoopSeparated(g, level, StartWalk(level), g.Keys);
      assert PageSeparated(g, g[Chain(g, level.leftmost, g.Keys)[n]]);
    }
  }

  lemma AcceptedNeighbours(g: Graph, level: Level, i: nat)
    requires Settled(g, level.level) && level.leftmost != P_NONE && CheckLevel(g, level).Accepted?
    requires NoHalfDead(g, level.leftmost, g.Keys) && 1 <= i < |Chain(g, level.leftmost, g.Keys)|
    ensures var c := Chain(g, level.leftmost, g.Keys); InOrderAcross(g[c[i - 1]], g[c[i]])
  {
    var c := Chain(g, level.leftmost, g.Keys);
    AcceptedPageHealthy(g, level, i);
    AcceptedPageHealthy(g, level, i - 1);
    AcceptedLevelIsList(g, level);
    assert g[c[i - 1]].next == c[i];
    AcceptedAcross(g, g[c[i - 1]]);
  }

  lemma AcceptedStart(g: Graph, level: Level)
    requires level.leftmost != P_NONE && CheckLevel(g, level).Accepted? && NoHalfDead(g, level.leftmost, g.Keys)
    ensures level.leftmost in g
    ensures level.trueRoot ==> g[level.leftmost].root || g[level.leftmost].incompleteSplit
  {
    ChainSteps(g, level.leftmost, g.Keys);
  }

  lemma AcceptedIsHealthy(g: Graph, level: Level)
    requires Settled(g, level.level) && level.leftmost != P_NONE && CheckLevel(g, level).Accepted?
    requires NoHalfDead(g, level.leftmost, g.Keys)
    ensures LevelHealthy(g, level, Chain(g, level.leftmost, g.Keys))
  {
    var c := Chain(g, level.leftmost, g.Keys);
    AcceptedLevelIsList(g, level);
    AcceptedStart(g, level);
    forall i | 0 <= i < |c| ensures PageHealthy(g, g[c[i]]) {
      AcceptedPageHealthy(g, level, i);
    }
    forall i | 1 <= i < |c| ensures InOrderAcross(g[c[i - 1]], g[c[i]]) {
      AcceptedNeighbours(g, level, i);
    }
    if level.level > 0 {
      AcceptedLoopLinked(g, level, StartWalk(level), g.Keys);
    }
  }

  lemma HealthyIsAccepted(g: Graph, level: Level, c: seq<nat>)
    requires Settled(g, level.level) && LevelHealthy(g, level, c)
    ensures CheckLevel(g, level).Accepted?
  {
    assert c[0..] == c;
    LoopAccepts(g, level, c, 0, StartWalk(level), g.Keys);
  }

  /** Where no split or deletion was interrupted on the level below, the check accepts a level
      that has no half-dead page exactly if the chain of right links from its leftmost page is
      a healthy level. */
  lemma AcceptedIffHealthy(g: Graph, level: Level)
    requires Settled(g, level.level) && level.leftmost != P_NONE
    ensures CheckLevel(g, level).Accepted? && NoHalfDead(g, level.leftmost, g.Keys) <==>
            LevelHealthy(g, level, Chain(g, level.leftmost, g.Keys))
  {
    if LevelHealthy(g, level, Chain(g, level.leftmost, g.Keys)) {
      HealthyIsAccepted(g, level, Chain(g, level.leftmost, g.Keys));
    } else if CheckLevel(g, level).Accepted? && NoHalfDead(g, level.leftmost, g.Keys) {
      AcceptedIsHealthy(g, level);
    }
  }
}
