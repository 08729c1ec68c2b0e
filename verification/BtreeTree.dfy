/** The whole tree: what it means that no level, from the root down to the leaves, gave cause
    for complaint. */
module BtreeTree {
  import opened BtreeSpec
  import opened BtreeWalk
  import opened BtreeLockstep

  predicate LevelOk(g: Graph, levels: seq<Level>, i: nat)
    requires i < |levels|
  {
    levels[i].leftmost != P_NONE && CheckLevel(g, levels[i]).Accepted?
  }

  predicate StepDown(g: Graph, levels: seq<Level>, i: nat)
    requires i + 1 < |levels|
  {
    && LevelOk(g, levels, i) && LevelOk(g, levels, i + 1) && levels[i].level > 0
    && levels[i + 1] == Below(g, levels[i])
  }

  /** The levels that the check of an index has gone through, top to bottom, and accepted. */
  predicate EveryLevel(g: Graph, levels: seq<Level>) {
    && |levels| > 0
    && (forall i: nat :: i + 1 < |levels| ==> StepDown(g, levels, i))
    && LevelOk(g, levels, |levels| - 1) && CheckLevel(g, levels[|levels| - 1]).nextLeft == P_NONE
  }

  /** bt_check_every_level from this level down: nothing is below the leaf level. */
  function CheckTree(g: Graph, level: Level): Outcome
    decreases level.level
  {
    if level.leftmost == P_NONE then Accepted(P_NONE)
    else
      match CheckLevel(g, level)
      case Accepted(nextLeft) =>
        if nextLeft == INVALID_BLOCK then Rejected
        else if nextLeft == P_NONE || level.level == 0 then Accepted(P_NONE)
        else CheckTree(g, Level(level.level - 1, nextLeft, false))
      case r => r
  }

  lemma {:induction false} NothingBelowLeaves(g: Graph, level: Level, w: Walk, unseen: set<nat>)
    requires level.level == 0 && w.current != P_NONE && w.nextLeft in {P_NONE, INVALID_BLOCK}
    requires LevelLoop(g, level, w, unseen).Accepted?
    ensures LevelLoop(g, level, w, unseen).nextLeft in {P_NONE, INVALID_BLOCK}
    decreases unseen
  {
    var t, v := g[w.current], VisitPage(g, level, w).value;
    if !Rightmost(t) {
      NothingBelowLeaves(g, level, NextWalk(t, w, v), unseen - {w.current});
    }
  }

  /** On the leaf level there is no leftmost block below to go on with. */
  lemma LeafLevelIsLast(g: Graph, level: Level)
    requires level.leftmost != P_NONE && CheckLevel(g, level).Accepted?
    ensures CheckLevel(g, level).nextLeft in {P_NONE, INVALID_BLOCK} || level.level > 0
  {
    if level.level == 0 {
      NothingBelowLeaves(g, level, StartWalk(level), g.Keys);
    }
  }

  lemma {:induction false} AcceptedTreeHasLevels(g: Graph, level: Level) returns (levels: seq<Level>)
    requires level.leftmost != P_NONE && CheckTree(g, level).Accepted?
    ensures EveryLevel(g, levels) && levels[0] == level
    decreases level.level
  {
    LeafLevelIsLast(g, level);
    if CheckLevel(g, level).nextLeft == P_NONE {
      levels := [level];
    } else {
      var rest := AcceptedTreeHasLevels(g, Below(g, level));
      levels := [level] + rest;
      Prepend(g, level, rest);
    }
  }

  lemma Prepend(g: Graph, level: Level, rest: seq<Level>)
    requires EveryLevel(g, rest) && level.leftmost != P_NONE && level.level > 0 && CheckLevel(g, level).Accepted?
    requires rest[0] == Below(g, level)
    ensures EveryLevel(g, [level] + rest)
  {
    var levels := [level] + rest;
    forall i: nat | i + 1 < |levels| ensures StepDown(g, levels, i) {
      if i > 0 {
        assert StepDown(g, rest, i - 1);
      } else {
        assert |rest| > 1 ==> StepDown(g, rest, 0);
      }
    }
  }

  lemma {:induction false} LevelsMakeAcceptedTree(g: Graph, levels: seq<Level>, i: nat)
    requires EveryLevel(g, levels) && i < |levels|
    ensures CheckTree(g, levels[i]).Accepted?
    decreases |levels| - i
  {
    if i + 1 < |levels| {
      LevelsMakeAcceptedTree(g, levels, i + 1);
      assert StepDown(g, levels, i);
    }
  }

  /** The check of an index reports nothing if and only if it is empty or there are levels,
      each accepted and leading to the next, from the root level down to one that has nothing
      below it. */
  lemma CheckTreeIff(g: Graph, level: Level)
    ensures CheckTree(g, level).Accepted? <==>
            level.leftmost == P_NONE || exists levels :: EveryLevel(g, levels) && levels[0] == level
  {
    if level.leftmost != P_NONE {
      if CheckTree(g, level).Accepted? {
        var levels := AcceptedTreeHasLevels(g, level);
      } else if exists levels :: EveryLevel(g, levels) && levels[0] == level {
        var levels :| EveryLevel(g, levels) && levels[0] == level;
        LevelsMakeAcceptedTree(g, levels, 0);
      }
    }
  }

  /** No page is half-dead and no level up to this one was left in the middle of a split or
      deletion. What is above, and pages that are not linked in, are of no concern. */
  ghost predicate Quiescent(g: Graph, top: nat) {
    && (forall b :: b in g && b != P_NONE ==> !g[b].halfDead)
    && (forall l: nat :: l <= top ==> Settled(g, l))
  }

  ghost predicate Stacked(g: Graph, levels: seq<Level>, i: nat)
    requires i + 1 < |levels|
  {
    TwoLevels(g, levels[i]) && Below(g, levels[i]) == levels[i + 1]
  }

  /** Each level is accepted, settled and leads to the next one. */
  ghost predicate Stack(g: Graph, levels: seq<Level>) {
    forall i: nat :: i + 1 < |levels| ==> Stacked(g, levels, i)
  }

  lemma {:induction false} LevelsCountDown(g: Graph, levels: seq<Level>, i: nat)
    requires EveryLevel(g, levels) && i < |levels|
    ensures levels[i].level == levels[0].level - i
    decreases i
  {
    if i > 0 {
      LevelsCountDown(g, levels, i - 1);
      assert StepDown(g, levels, i - 1);
    }
  }

  lemma EveryLevelIsStacked(g: Graph, levels: seq<Level>)
    requires EveryLevel(g, levels) && Quiescent(g, levels[0].level)
    ensures Stack(g, levels)
  {
    forall i: nat | i + 1 < |levels| ensures Stacked(g, levels, i) {
      LevelsCountDown(g, levels, i);
      assert StepDown(g, levels, i);
    }
  }

  lemma LastLevelHasLeaves(g: Graph, levels: seq<Level>)
    requires EveryLevel(g, levels) && Quiescent(g, levels[0].level)
    ensures levels[|levels| - 1].level == 0 && |levels| == levels[0].level + 1
  {
    var last := levels[|levels| - 1];
    LevelsCountDown(g, levels, |levels| - 1);
    if last.level > 0 {
      Lockstep(g, last);
    }
  }

  /** A doubly linked list of leaf-level pages, each once, from a left end to a rightmost page. */
  ghost predicate LeafList(g: Graph, c: seq<nat>) {
    |c| > 0 && DoublyLinked(g, 0, c) && LeftEnd(g, c[0]) && g[c[|c| - 1]].next == P_NONE
  }

  lemma LastLevelIsList(g: Graph, levels: seq<Level>)
    requires EveryLevel(g, levels) && Quiescent(g, levels[0].level)
    ensures LeafList(g, Chain(g, levels[|levels| - 1].leftmost, g.Keys))
  {
    LastLevelHasLeaves(g, levels);
    AcceptedLevelIsList(g, levels[|levels| - 1]);
  }

  /** The levels of an accepted tree: all of them, from the root's down to the leaves. */
  lemma TreeLevels(g: Graph, root: Level) returns (levels: seq<Level>)
    requires root.leftmost != P_NONE && CheckTree(g, root).Accepted? && Quiescent(g, root.level)
    ensures Stack(g, levels) && |levels| == root.level + 1 && levels[0] == root
    ensures LeafList(g, Chain(g, levels[root.level].leftmost, g.Keys))
  {
    levels := AcceptedTreeHasLevels(g, root);
    EveryLevelIsStacked(g, levels);
    LastLevelHasLeaves(g, levels);
    LastLevelIsList(g, levels);
  }

  /** A tree that gives no cause for complaint has as many levels as its root says, each
      accepted, and the last one is the leaf level. */
  lemma EndsAtTheLeaves(g: Graph, root: Level)
    requires root.leftmost != P_NONE && CheckTree(g, root).Accepted? && Quiescent(g, root.level)
    ensures exists levels: seq<Level> :: EveryLevel(g, levels) && levels[0] == root && |levels| == root.level + 1
                             && levels[root.level].level == 0
  {
    var levels := AcceptedTreeHasLevels(g, root);
    LastLevelHasLeaves(g, levels);
  }

  /** The pages that downlinks lead to from the pages of c, so many levels down; nothing if a
      downlink leads nowhere. */
  function Reached(g: Graph, c: seq<nat>, depth: nat): seq<nat>
    requires forall b :: b in c ==> b in g
    decreases depth
  {
    if depth == 0 then c
    else
      var ds := ChainDownlinks(g, c);
      if forall d :: d in ds ==> d in g then Reached(g, ds, depth - 1) else []
  }

  lemma ReachedStep(g: Graph, b: nat, c: nat, depth: nat)
    requires depth > 0 && ChainDownlinks(g, Chain(g, b, g.Keys)) == Chain(g, c, g.Keys)
    ensures Reached(g, Chain(g, b, g.Keys), depth) == Reached(g, Chain(g, c, g.Keys), depth - 1)
  {
  }

  lemma DownlinksAreBelow(g: Graph, levels: seq<Level>, i: nat)
    requires i + 1 < |levels| && Stacked(g, levels, i)
    ensures ChainDownlinks(g, Chain(g, levels[i].leftmost, g.Keys)) == Chain(g, levels[i + 1].leftmost, g.Keys)
  {
    LockstepOfTwo(g, levels[i]);
  }

  lemma OneLevelDown(g: Graph, levels: seq<Level>, i: nat)
    requires Stack(g, levels) && i + 1 < |levels|
    ensures ChainDownlinks(g, Chain(g, levels[i].leftmost, g.Keys)) == Chain(g, levels[i + 1].leftmost, g.Keys)
  {
    DownlinksAreBelow(g, levels, i);
  }

  lemma {:induction false} ChainReached(g: Graph, levels: seq<Level>, i: nat, depth: nat)
    requires Stack(g, levels) && i + depth < |levels|
    ensures Reached(g, Chain(g, levels[i].leftmost, g.Keys), depth) == Chain(g, levels[i + depth].leftmost, g.Keys)
    decreases depth
  {
    if depth > 0 {
      OneLevelDown(g, levels, i);
      ReachedStep(g, levels[i].leftmost, levels[i + 1].leftmost, depth);
      ChainReached(g, levels, i + 1, depth - 1);
    }
  }

  lemma StackReachesLeaves(g: Graph, levels: seq<Level>, b: nat, depth: nat)
    requires Stack(g, levels) && |levels| == depth + 1 && levels[0].leftmost == b
    requires LeafList(g, Chain(g, levels[depth].leftmost, g.Keys))
    ensures LeafList(g, Reached(g, Chain(g, b, g.Keys), depth))
  {
    ChainReached(g, levels, 0, depth);
  }

  /** In an accepted tree, following downlinks from the root level all the way down gives
      exactly the leaf level: a doubly linked list, each page once, from a left end to a
      rightmost page. */
  lemma DownlinksReachTheLeaves(g: Graph, root: Level)
    requires root.leftmost != P_NONE && CheckTree(g, root).Accepted? && Quiescent(g, root.level)
    ensures LeafList(g, Reached(g, Chain(g, root.leftmost, g.Keys), root.level))
  {
    var levels := TreeLevels(g, root);
    StackReachesLeaves(g, levels, root.leftmost, root.level);
  }

  // ----- Every item is bounded by every ancestor's pivots

  /** A page and an offset on it. */
  datatype Place = Place(block: nat, off: nat)

  predicate OnPage(g: Graph, p: Place) {
    p.block in g && FirstDataKey(g[p.block]) <= p.off <= MaxOffset(g[p.block])
  }

  predicate Real(g: Graph, p: Place) {
    OnPage(g, p) && FirstReal(g[p.block]) <= p.off
  }

  function KeyAt(g: Graph, p: Place): int
    requires OnPage(g, p)
  {
    Line(g[p.block], p.off).key
  }

  /** The place holds the downlink to the page of the other. */
  predicate LeadsTo(g: Graph, p: Place, q: Place) {
    OnPage(g, p) && OnPage(g, q) && Line(g[p.block], p.off).downlink == q.block
  }

  ghost predicate OnLevel(g: Graph, level: Level, p: Place) {
    OnPage(g, p) && p.block in Chain(g, level.leftmost, g.Keys)
  }

  /** From each place the downlink leads to the page of the next one. */
  predicate Descent(g: Graph, path: seq<Place>) {
    forall i: nat :: i + 1 < |path| ==> LeadsTo(g, path[i], path[i + 1])
  }

  /** One step: a real item lies within the span of the downlink to its page. */
  lemma OneStep(g: Graph, level: Level, p: Place, q: Place)
    requires TwoLevels(g, level) && OnLevel(g, level, p) && LeadsTo(g, p, q)
    ensures OnLevel(g, Below(g, level), q)
    ensures Real(g, q) ==> Within(g[p.block], p.off, KeyAt(g, q))
    ensures Real(g, q) && Real(g, p) ==> KeyAt(g, p) < KeyAt(g, q)
  {
    var c := Chain(g, level.leftmost, g.Keys);
    var n :| 0 <= n < |c| && c[n] == p.block;
    var m := DownlinkLeadsBelow(g, level, n, p.off);
    if Real(g, q) {
      KeySpace(g, level, n, p.off, q.off);
    }
  }

  /** What is within the span of a child's place is within the span of its parent's. */
  lemma SpanWidens(g: Graph, level: Level, p: Place, q: Place, key: int)
    requires TwoLevels(g, level) && OnLevel(g, level, p) && LeadsTo(g, p, q)
    requires Within(g[q.block], q.off, key)
    ensures Within(g[p.block], p.off, key)
  {
    var c := g[q.block];
    if q.off < MaxOffset(c) {
      OneStep(g, level, p, Place(q.block, q.off + 1));
    } else {
      var chain := Chain(g, level.leftmost, g.Keys);
      var n :| 0 <= n < |chain| && chain[n] == p.block;
      SeparatorsMatch(g, level, n, p.off);
      var m := DownlinkLeadsBelow(g, level, n, p.off);
      OnlyLastPageIsRightmost(g, level, n);
    }
  }

  /** What one step down says: about a real item there, and about the span of the place. */
  ghost predicate Narrows(g: Graph, p: Place, q: Place) {
    && OnPage(g, p) && OnPage(g, q)
    && (Real(g, q) ==> Within(g[p.block], p.off, KeyAt(g, q)))
    && (Real(g, q) && Real(g, p) ==> KeyAt(g, p) < KeyAt(g, q))
    && (forall key :: Within(g[q.block], q.off, key) ==> Within(g[p.block], p.off, key))
  }

  ghost predicate NarrowsAt(g: Graph, path: seq<Place>, i: nat)
    requires i + 1 < |path|
  {
    Narrows(g, path[i], path[i + 1])
  }

  lemma StepStaysOnLevels(g: Graph, levels: seq<Level>, n: nat, p: Place, q: Place)
    requires Stack(g, levels) && n + 1 < |levels| && OnLevel(g, levels[n], p) && LeadsTo(g, p, q)
    ensures OnLevel(g, levels[n + 1], q)
  {
    StackedStep(g, levels, n, p, q);
  }

  lemma StackedStep(g: Graph, levels: seq<Level>, n: nat, p: Place, q: Place)
    requires n + 1 < |levels| && Stacked(g, levels, n) && OnLevel(g, levels[n], p) && LeadsTo(g, p, q)
    ensures OnLevel(g, levels[n + 1], q)
  {
    OneStep(g, levels[n], p, q);
  }

  lemma {:induction false} PathStaysOnLevels(g: Graph, levels: seq<Level>, i: nat, path: seq<Place>, j: nat)
    requires Stack(g, levels) && i + |path| <= |levels| && j < |path|
    requires Descent(g, path) && OnLevel(g, levels[i], path[0])
    ensures OnLevel(g, levels[i + j], path[j])
    decreases j
  {
    if j > 0 {
      var k: nat := j - 1;
      PathStaysOnLevels(g, levels, i, path, k);
      assert LeadsTo(g, path[k], path[k + 1]);
      StepStaysOnLevels(g, levels, i + k, path[k], path[k + 1]);
    }
  }

  lemma PathNarrows(g: Graph, levels: seq<Level>, i: nat, path: seq<Place>, j: nat)
    requires Stack(g, levels) && i + |path| <= |levels| && j + 1 < |path|
    requires Descent(g, path) && OnLevel(g, levels[i], path[0])
    ensures NarrowsAt(g, path, j)
  {
    PathStaysOnLevels(g, levels, i, path, j);
    assert Stacked(g, levels, i + j);
    var p, q := path[j], path[j + 1];
    assert LeadsTo(g, path[j], path[j + 1]);
    OneStep(g, levels[i + j], p, q);
    forall key | Within(g[q.block], q.off, key) ensures Within(g[p.block], p.off, key) {
      SpanWidens(g, levels[i + j], p, q, key);
    }
  }

  lemma {:induction false} NarrowingPath(g: Graph, path: seq<Place>, j: nat)
    requires (forall i: nat :: i + 1 < |path| ==> NarrowsAt(g, path, i)) && j + 1 < |path|
    requires Real(g, path[|path| - 1])
    ensures OnPage(g, path[j]) && Within(g[path[j].block], path[j].off, KeyAt(g, path[|path| - 1]))
    ensures (forall i :: j <= i < |path| ==> Real(g, path[i])) ==> KeyAt(g, path[j]) < KeyAt(g, path[|path| - 1])
    decreases |path| - j
  {
    assert NarrowsAt(g, path, j);
    if j + 2 < |path| {
      NarrowingPath(g, path, j + 1);
    }
  }

  lemma DescentNarrows(g: Graph, levels: seq<Level>, i: nat, path: seq<Place>)
    requires Stack(g, levels) && 2 <= |path| && i + |path| <= |levels|
    requires Descent(g, path) && Real(g, path[|path| - 1])
    requires OnPage(g, path[0]) && path[0].block in Reached(g, Chain(g, levels[0].leftmost, g.Keys), i)
    ensures Within(g[path[0].block], path[0].off, KeyAt(g, path[|path| - 1]))
    ensures (forall j :: 0 <= j < |path| ==> Real(g, path[j])) ==> KeyAt(g, path[0]) < KeyAt(g, path[|path| - 1])
  {
    ChainReached(g, levels, 0, i);
    forall j: nat | j + 1 < |path| ensures NarrowsAt(g, path, j) {
      PathNarrows(g, levels, i, path, j);
    }
    NarrowingPath(g, path, 0);
  }

  /** In an accepted tree, every real item that a descent of any length ends at, from any
      page that downlinks lead to from the root, is at most the pivot that follows the
      downlink the descent started with. It is above the pivot of that downlink if no place
      on the way, the first included, is the negative-infinity item of its page. */
  lemma AncestorsBound(g: Graph, root: Level, depth: nat, path: seq<Place>)
    requires root.leftmost != P_NONE && CheckTree(g, root).Accepted? && Quiescent(g, root.level)
    requires 2 <= |path| && depth + |path| <= root.level + 1 && Descent(g, path) && Real(g, path[|path| - 1])
    requires OnPage(g, path[0]) && path[0].block in Reached(g, Chain(g, root.leftmost, g.Keys), depth)
    ensures Within(g[path[0].block], path[0].off, KeyAt(g, path[|path| - 1]))
    ensures (forall j :: 0 <= j < |path| ==> Real(g, path[j])) ==> KeyAt(g, path[0]) < KeyAt(g, path[|path| - 1])
  {
    var levels := TreeLevels(g, root);
    DescentNarrows(g, levels, depth, path);
  }
}
