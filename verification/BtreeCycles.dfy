/** When the level check ends: always, where no split or deletion was interrupted; and
    exactly when its inner loops go round for ever, in terms of links and flags. */
module BtreeCycles {
  import opened BtreeSpec
  import opened BtreeWalk
  import opened BtreeLockstep

  // ----- Around a settled level every check ends

  /** No page of the chain from b is deleted or half-dead. */
  ghost predicate LiveChain(g: Graph, b: nat, unseen: set<nat>) {
    forall x :: x in Chain(g, b, unseen) ==> !Ignore(g[x])
  }

  /** The call that ends a level stops at the first page it meets. */
  lemma LastChildWalkEnds(g: Graph, t: BtPage, lowkey: MaybeTuple, st: ChildState)
    requires Settled(g, t.level) && Quiet(g, st)
    ensures ChildHighKey(g, t, lowkey, st, 0) != Revisits
  {
    var b := st.rightlink;
    if LiveAt(g, b, t.level - 1) {
      NoDownlinkNotTolerated(g, t.level, b);
    }
  }

  /** Comparing with the page to the right ends at once if that page is live. */
  predicate RightIsLive(g: Graph, t: BtPage) {
    t.next in g && !Rightmost(t) ==> !Ignore(g[t.next])
  }

  lemma RightOrderEnds(g: Graph, t: BtPage, key: int)
    requires RightIsLive(g, t)
    ensures RightOrder(g, t, key) != Revisits
  {
  }

  /** One offset: an error, or the loop goes on with a quiet child walk. */
  lemma ItemEnds(g: Graph, t: BtPage, lowkey: MaybeTuple, st: ChildState, off: nat) returns (st': ChildState)
    requires Settled(g, t.level) && Quiet(g, st) && RightIsLive(g, t) && FirstDataKey(t) <= off <= MaxOffset(t)
    requires !t.leaf ==> SoundDownlinks(g, t)
    ensures Quiet(g, st') && (t.leaf ==> st' == st)
    ensures ItemsLoop(g, t, lowkey, st, off) in {Corrupt, ItemsLoop(g, t, lowkey, st', off + 1)}
  {
    RightOrderEnds(g, t, Line(t, off).key);
    st' := st;
    if !t.leaf {
      ChildWalkIsDirect(g, t, lowkey, st, off);
      var r := ChildHighKey(g, t, lowkey, st, off);
      if r.Pass? {
        st' := r.value;
      }
    }
  }

  lemma {:induction false} ItemsEnd(g: Graph, t: BtPage, lowkey: MaybeTuple, st: ChildState, off: nat)
    requires Settled(g, t.level) && Quiet(g, st) && RightIsLive(g, t) && FirstDataKey(t) <= off
    requires !t.leaf ==> SoundDownlinks(g, t)
    ensures ItemsLoop(g, t, lowkey, st, off) != Revisits
    ensures t.leaf && ItemsLoop(g, t, lowkey, st, off).Pass? ==> ItemsLoop(g, t, lowkey, st, off).value == st
    decreases MaxOffset(t) + 1 - off
  {
    if off > MaxOffset(t) {
      LastChildWalkEnds(g, t, lowkey, st);
    } else {
      var st' := ItemEnds(g, t, lowkey, st, off);
      ItemsEnd(g, t, lowkey, st', off + 1);
    }
  }

  /** The checks of one live page of the level end, and leave the child walk quiet. */
  lemma VisitEnds(g: Graph, level: Level, w: Walk)
    requires Settled(g, level.level) && Quiet(g, w.st) && w.current in g && w.current != P_NONE
    requires !Ignore(g[w.current]) && RightIsLive(g, g[w.current])
    ensures VisitPage(g, level, w) != Revisits
    ensures VisitPage(g, level, w).Pass? && !Rightmost(g[w.current]) ==> Quiet(g, VisitPage(g, level, w).value.1)
  {
    var t := g[w.current];
    LeftmostEnds(g, w.current);
    if t.level == level.level {
      assert LiveAt(g, w.current, level.level);
      ItemsEnd(g, t, w.lowkey, w.st, FirstDataKey(t));
      if level.level > 0 && VisitPage(g, level, w).Pass? {
        VisitedPageLinked(g, level, w);
      }
    }
  }

  lemma NextIsLive(g: Graph, b: nat, unseen: set<nat>)
    requires LiveChain(g, b, unseen) && b in g && b != P_NONE && b in unseen
    ensures !Ignore(g[b]) && RightIsLive(g, g[b]) && LiveChain(g, g[b].next, unseen - {b})
  {
    ChainSteps(g, b, unseen);
    if g[b].next in g && !Rightmost(g[b]) {
      ChainSteps(g, g[b].next, unseen - {b});
    }
  }

  lemma {:induction false} LoopEnds(g: Graph, level: Level, path: seq<nat>, w: Walk, unseen: set<nat>)
    requires Settled(g, level.level) && Quiet(g, w.st) && LiveChain(g, w.current, unseen)
    requires Trail(g, path, w) && forall b :: b in g && b !in path ==> b in unseen
    ensures var o := LevelLoop(g, level, w, unseen);
            o.Accepted? || o.Rejected? || (o.Round? && o.w.current in g && VisitPage(g, level, o.w) == Corrupt)
    decreases unseen
  {
    var b := w.current;
    if b in g {
      ChainSteps(g, b, unseen);
      if b in path {
        SecondVisitFails(g, level, path, w);
      } else {
        NextIsLive(g, b, unseen);
        VisitEnds(g, level, w);
        if VisitPage(g, level, w).Pass? && !Rightmost(g[b]) {
          TrailGrows(g, level, path, w);
          LoopEnds(g, level, path + [b], NextWalk(g[b], w, VisitPage(g, level, w).value), unseen - {b});
        }
      }
    }
  }

  /** A level none of whose pages is deleted or half-dead, over a level where no split or
      deletion was interrupted, is always accepted or rejected: no check goes on for ever. */
  lemma CheckEnds(g: Graph, level: Level)
    requires level.leftmost != P_NONE && Settled(g, level.level) && LiveChain(g, level.leftmost, g.Keys)
    ensures CheckLevel(g, level).Accepted? || CheckLevel(g, level).Rejected?
  {
    LoopEnds(g, level, [], StartWalk(level), g.Keys);
  }

  // ----- When the child walk goes round

  /** x follows right links from page to page. */
  predicate Steps(g: Graph, x: seq<nat>) {
    && (forall i :: 0 <= i < |x| ==> x[i] in g && x[i] != P_NONE)
    && (forall i :: 1 <= i < |x| ==> g[x[i - 1]].next == x[i])
  }

  predicate Distinct(x: seq<nat>) {
    forall i, j :: 0 <= i < j < |x| ==> x[i] != x[j]
  }

  /** Right links lead over distinct pages and then back to one of them. */
  predicate Lap(g: Graph, x: seq<nat>) {
    && |x| >= 2 && Steps(g, x)
    && (forall i, j :: 0 <= i < j < |x| - 1 ==> x[i] != x[j])
    && (exists i :: 0 <= i < |x| - 1 && x[i] == x[|x| - 1])
  }

  /** A page that the child walk, looking for downlink, has no objection to stepping over:
      no downlink is missed, because the page is ignorable, a root, the right half of an
      unfinished split or the top of a subtree being deleted; and the high key, unless the
      page is itself half-dead or half of an unfinished split, is the parent's pivot. */
  predicate SteppedOver(g: Graph, t: BtPage, lowkey: MaybeTuple, off: nat, downlink: nat, b: nat, afterSplit: bool)
    requires b in g
  {
    var pg := g[b];
    && b != downlink && b != pg.prev
    && (!pg.deleted || pg.fullXid ==> pg.level == t.level - 1)
    && (pg.deleted || pg.halfDead || pg.root || afterSplit || MissingDownlinkOk(g, false, b))
    && (pg.incompleteSplit || pg.halfDead || HighKeyMatches(t, lowkey, off, false, pg))
  }

  predicate AfterSplit(g: Graph, st: ChildState, x: seq<nat>, i: nat)
    requires i < |x| && forall j :: 0 <= j < |x| ==> x[j] in g
  {
    if i == 0 then st.incompleteSplit else g[x[i - 1]].incompleteSplit
  }

  function Goal(t: BtPage, off: nat): nat
    requires off <= MaxOffset(t)
  {
    if off == 0 then P_NONE else Line(t, off).downlink
  }

  predicate AllSteppedOver(g: Graph, t: BtPage, lowkey: MaybeTuple, st: ChildState, off: nat, x: seq<nat>)
    requires off <= MaxOffset(t) && forall j :: 0 <= j < |x| ==> x[j] in g
  {
    forall i :: 0 <= i < |x| ==> SteppedOver(g, t, lowkey, off, Goal(t, off), x[i], AfterSplit(g, st, x, i))
  }

  /** A lap of pages that are all stepped over, and that does not close at its start. */
  predicate ChildLap(g: Graph, t: BtPage, lowkey: MaybeTuple, st: ChildState, off: nat, x: seq<nat>)
    requires off <= MaxOffset(t)
  {
    Lap(g, x) && x[0] == st.rightlink && x[|x| - 1] != x[0] && AllSteppedOver(g, t, lowkey, st, off, x)
  }

  predicate LeftOnce(g: Graph, x: seq<nat>, unseen: set<nat>) {
    forall b :: b in g ==> (b in unseen <==> b !in x)
  }

  function Ahead(g: Graph, st: ChildState, x: seq<nat>): nat
    requires forall j :: 0 <= j < |x| ==> x[j] in g
  {
    if x == [] then st.rightlink else g[x[|x| - 1]].next
  }

  /** The state in which the child walk stands behind the pages of x. */
  function LoopBehind(g: Graph, t: BtPage, lowkey: MaybeTuple, st: ChildState, off: nat, x: seq<nat>, unseen: set<nat>)
      : Verdict<ChildState>
    requires off <= MaxOffset(t) && forall j :: 0 <= j < |x| ==> x[j] in g
  {
    ChildLoop(g, t, lowkey, st, off, Goal(t, off), Ahead(g, st, x),
              if x == [] then st.incompleteSplit else g[x[|x| - 1]].incompleteSplit, x == [], unseen)
  }

  /** One turn of the child loop over a page that is not the goal. */
  lemma TurnIff(g: Graph, t: BtPage, lowkey: MaybeTuple, st: ChildState, off: nat, b: nat, split: bool, first: bool,
                unseen: set<nat>)
    requires off <= MaxOffset(t) && st.rightlink != INVALID_BLOCK
    requires b in g && b != P_NONE && !Rightmost(g[b]) && b != Goal(t, off)
    ensures ChildLoop(g, t, lowkey, st, off, Goal(t, off), b, split, first, unseen) ==
            if (!first && b == st.rightlink) || !SteppedOver(g, t, lowkey, off, Goal(t, off), b, split) then Corrupt
            else if b !in unseen then Revisits
            else ChildLoop(g, t, lowkey, st, off, Goal(t, off), g[b].next, g[b].incompleteSplit, false, unseen - {b})
  {
  }

  lemma Extend(g: Graph, t: BtPage, lowkey: MaybeTuple, st: ChildState, off: nat, x: seq<nat>)
    requires off <= MaxOffset(t) && Steps(g, x) && AllSteppedOver(g, t, lowkey, st, off, x)
    requires Ahead(g, st, x) in g && Ahead(g, st, x) != P_NONE
    requires SteppedOver(g, t, lowkey, off, Goal(t, off), Ahead(g, st, x),
                         if x == [] then st.incompleteSplit else g[x[|x| - 1]].incompleteSplit)
    ensures Steps(g, x + [Ahead(g, st, x)]) && AllSteppedOver(g, t, lowkey, st, off, x + [Ahead(g, st, x)])
  {
  }

  lemma CloseLap(g: Graph, x: seq<nat>, b: nat)
    requires Steps(g, x + [b]) && Distinct(x) && b in x
    ensures Lap(g, x + [b])
  {
    var y := x + [b];
    var i :| 0 <= i < |x| && x[i] == b;
    assert y[i] == y[|y| - 1];
  }

  /** A loop that comes back to a page it has left has walked a lap. */
  lemma {:induction false} FindLap(g: Graph, t: BtPage, lowkey: MaybeTuple, st: ChildState, off: nat,
                                   x: seq<nat>, unseen: set<nat>) returns (y: seq<nat>)
    requires off <= MaxOffset(t) && st.rightlink != INVALID_BLOCK && Steps(g, x) && (x != [] ==> x[0] == st.rightlink)
    requires AllSteppedOver(g, t, lowkey, st, off, x) && Distinct(x) && LeftOnce(g, x, unseen)
    requires LoopBehind(g, t, lowkey, st, off, x, unseen) == Revisits
    ensures ChildLap(g, t, lowkey, st, off, y)
    decreases unseen
  {
    var b := Ahead(g, st, x);
    assert b in g && b != P_NONE && b != Goal(t, off);
    NotRightmost(g, t, lowkey, st, off, x, unseen);
    TurnIff(g, t, lowkey, st, off, b, if x == [] then st.incompleteSplit else g[x[|x| - 1]].incompleteSplit, x == [],
            unseen);
    Extend(g, t, lowkey, st, off, x);
    if b in x {
      y := x + [b];
      CloseLap(g, x, b);
    } else {
      y := FindLap(g, t, lowkey, st, off, x + [b], unseen - {b});
    }
  }

  /** Behind a rightmost page there is nothing to come back to. */
  lemma NotRightmost(g: Graph, t: BtPage, lowkey: MaybeTuple, st: ChildState, off: nat, x: seq<nat>, unseen: set<nat>)
    requires off <= MaxOffset(t) && Steps(g, x) && LeftOnce(g, x, unseen)
    requires Ahead(g, st, x) in g && LoopBehind(g, t, lowkey, st, off, x, unseen) == Revisits
    ensures !Rightmost(g[Ahead(g, st, x)])
  {
    var b := Ahead(g, st, x);
    assert ChildLoop(g, t, lowkey, st, off, Goal(t, off), P_NONE, g[b].incompleteSplit, false, unseen - {b}) != Revisits;
    if Rightmost(g[b]) {
      forall i | 0 <= i < |x| ensures x[i] != b {
        if i + 1 < |x| {
          assert g[x[i + 1 - 1]].next == x[i + 1];
        }
      }
    }
  }

  /** The child walk standing on y[n]. */
  function LoopOn(g: Graph, t: BtPage, lowkey: MaybeTuple, st: ChildState, off: nat, y: seq<nat>, n: nat, unseen: set<nat>)
      : Verdict<ChildState>
    requires off <= MaxOffset(t) && n < |y| && forall j :: 0 <= j < |y| ==> y[j] in g
  {
    ChildLoop(g, t, lowkey, st, off, Goal(t, off), y[n], AfterSplit(g, st, y, n), n == 0, unseen)
  }

  /** One turn on the way round. */
  lemma LapTurn(g: Graph, t: BtPage, lowkey: MaybeTuple, st: ChildState, off: nat, y: seq<nat>, n: nat, unseen: set<nat>)
    requires off <= MaxOffset(t) && ChildLap(g, t, lowkey, st, off, y) && st.rightlink != INVALID_BLOCK && n < |y|
    ensures y[n] !in unseen ==> LoopOn(g, t, lowkey, st, off, y, n, unseen) == Revisits
    ensures y[n] in unseen && n + 1 < |y| ==>
              LoopOn(g, t, lowkey, st, off, y, n, unseen) == LoopOn(g, t, lowkey, st, off, y, n + 1, unseen - {y[n]})
  {
    assert SteppedOver(g, t, lowkey, off, Goal(t, off), y[n], AfterSplit(g, st, y, n));
    LapNotRightmost(g, y, n);
    LapStart(g, y, n);
    TurnIff(g, t, lowkey, st, off, y[n], AfterSplit(g, st, y, n), n == 0, unseen);
    assert n + 1 < |y| ==> g[y[n + 1 - 1]].next == y[n + 1];
  }

  lemma {:induction false} LapIsWalked(g: Graph, t: BtPage, lowkey: MaybeTuple, st: ChildState, off: nat,
                                       y: seq<nat>, n: nat, unseen: set<nat>)
    requires off <= MaxOffset(t) && ChildLap(g, t, lowkey, st, off, y) && st.rightlink != INVALID_BLOCK && n < |y|
    requires forall i :: 0 <= i < |y| - 1 ==> (y[i] in unseen <==> n <= i)
    ensures LoopOn(g, t, lowkey, st, off, y, n, unseen) == Revisits
    decreases |y| - n
  {
    LapTurn(g, t, lowkey, st, off, y, n, unseen);
    if n + 1 < |y| {
      LapIsWalked(g, t, lowkey, st, off, y, n + 1, unseen - {y[n]});
    }
  }

  lemma LapNotRightmost(g: Graph, y: seq<nat>, n: nat)
    requires Lap(g, y) && n < |y|
    ensures !Rightmost(g[y[n]])
  {
    var m :| 0 <= m < |y| - 1 && y[m] == y[|y| - 1];
    var i := if n + 1 < |y| then n else m;
    assert g[y[i + 1 - 1]].next == y[i + 1];
  }

  lemma LapStart(g: Graph, y: seq<nat>, n: nat)
    requires Lap(g, y) && n < |y| && y[|y| - 1] != y[0]
    ensures n > 0 ==> y[n] != y[0]
  {
  }

  /** The search for a downlink on the child level goes on for ever if and only if the right
      links from where it starts run into a cycle that the start is not on, and every page on
      the way and on the cycle is one that may be stepped over. */
  lemma ChildWalkGoesRoundIff(g: Graph, t: BtPage, lowkey: MaybeTuple, st: ChildState, off: nat)
    requires off <= MaxOffset(t)
    ensures ChildHighKey(g, t, lowkey, st, off) == Revisits <==>
            st.rightlink != INVALID_BLOCK && exists x :: ChildLap(g, t, lowkey, st, off, x)
  {
    assert LeftOnce(g, [], g.Keys);
    if st.rightlink != INVALID_BLOCK {
      assert LoopBehind(g, t, lowkey, st, off, [], g.Keys) == ChildHighKey(g, t, lowkey, st, off);
      if ChildHighKey(g, t, lowkey, st, off) == Revisits {
        var y := FindLap(g, t, lowkey, st, off, [], g.Keys);
      } else if exists x :: ChildLap(g, t, lowkey, st, off, x) {
        var y :| ChildLap(g, t, lowkey, st, off, y);
        LapIsWalked(g, t, lowkey, st, off, y, 0, g.Keys);
      }
    }
  }

  // ----- When the search for a page to the right goes round

  predicate AllIgnored(g: Graph, x: seq<nat>) {
    forall i :: 0 <= i < |x| ==> x[i] in g && Ignore(g[x[i]])
  }

  lemma {:induction false} FindIgnoredLap(g: Graph, x: seq<nat>, b: nat, unseen: set<nat>) returns (y: seq<nat>)
    requires Steps(g, x) && Distinct(x) && AllIgnored(g, x) && LeftOnce(g, x, unseen)
    requires b != P_NONE && (x != [] ==> g[x[|x| - 1]].next == b) && RightPage(g, b, unseen) == Revisits
    ensures Lap(g, y) && AllIgnored(g, y) && y[0] == if x == [] then b else x[0]
    decreases unseen
  {
    y := x + [b];
    if b in x {
      CloseLap(g, x, b);
    } else {
      y := FindIgnoredLap(g, y, g[b].next, unseen - {b});
    }
  }

  lemma {:induction false} IgnoredLapIsWalked(g: Graph, y: seq<nat>, n: nat, unseen: set<nat>)
    requires Lap(g, y) && AllIgnored(g, y) && n < |y|
    requires forall i :: 0 <= i < |y| - 1 ==> (y[i] in unseen <==> n <= i)
    ensures RightPage(g, y[n], unseen) == Revisits
    decreases |y| - n
  {
    LapNotRightmost(g, y, n);
    if n + 1 < |y| {
      IgnoredLapIsWalked(g, y, n + 1, unseen - {y[n]});
      assert g[y[n + 1 - 1]].next == y[n + 1];
    }
  }

  /** The comparison with the page to the right goes on for ever if and only if the right
      links from there run into a cycle, all over deleted and half-dead pages. */
  lemma RightWalkGoesRoundIff(g: Graph, b: nat)
    requires b != P_NONE
    ensures RightPage(g, b, g.Keys) == Revisits <==> exists x :: Lap(g, x) && AllIgnored(g, x) && x[0] == b
  {
    if RightPage(g, b, g.Keys) == Revisits {
      var y := FindIgnoredLap(g, [], b, g.Keys);
    } else if exists x :: Lap(g, x) && AllIgnored(g, x) && x[0] == b {
      var y :| Lap(g, y) && AllIgnored(g, y) && y[0] == b;
      IgnoredLapIsWalked(g, y, 0, g.Keys);
    }
  }
}
