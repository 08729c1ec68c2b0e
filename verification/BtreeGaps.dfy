/** Where acceptance says less than it seems to, and that it is possible: small page graphs. */
module BtreeGaps {
  import opened Optional
  import opened BtreeSpec
  import opened BtreeCycles
  import opened BtreeRounds
  import opened BtreeLockstep
  import opened BtreeTree
  import opened BtreeWalk

  function Leaf(prev: nat, next: nat, lines: seq<ITuple>): BtPage {
    BtPage(prev, next, 0, true, false, false, false, false, false, lines)
  }

  function Parent(prev: nat, next: nat, root: bool, lines: seq<ITuple>): BtPage {
    BtPage(prev, next, 1, false, root, false, false, false, false, lines)
  }

  function HalfDead(prev: nat, next: nat, lines: seq<ITuple>): BtPage {
    BtPage(prev, next, 0, true, false, false, true, false, false, lines)
  }

  /** An empty live leaf and a half-dead one that are neighbours on both sides. */
  function Ring(): Graph {
    map[1 := Leaf(2, 2, [ITuple(9, 0)]), 2 := HalfDead(0, 1, [ITuple(0, 0)])]
  }

  /** Half-dead pages are not compared with their neighbours, so a cycle through one is
      walked for ever. */
  lemma CycleThroughHalfDeadPage()
    ensures CheckLevel(Ring(), Level(0, 1, false)) == EndlessLevel
  {
    var g, level := Ring(), Level(0, 1, false);
    assert g.Keys == {1, 2};
    assert Leftmost(g, 1) == Pass(true) by {
      assert LeftmostLoop(g, 1, 2, 0, g.Keys - {2}) == Pass(true);
    }
    var w0 := StartWalk(level);
    assert VisitPage(g, level, w0) == Pass((0, CHILD_START));
    var w1 := Walk(1, 2, 0, CHILD_START, Some(ITuple(9, 0)));
    var w2 := Walk(2, 1, 0, CHILD_START, Some(ITuple(0, 0)));
    assert VisitPage(g, level, w1) == Pass((0, CHILD_START));
    var ws := [w0, w1, w2];
    assert TurnAt(g, level, ws, 0) && TurnAt(g, level, ws, 1);
    assert LevelLap(g, level, ws, 0) && RoundAgain(g, level, ws, 0);
    LevelGoesRoundIff(g, level);
  }

  function SplitLeaf(prev: nat, next: nat): BtPage {
    BtPage(prev, next, 0, true, false, false, false, true, false, [ITuple(10, 0)])
  }

  /** A root over leaves 2 and 3. From 2 right links lead through leaves in mid-split, 4, 5
      and 6, and from 6 back to 5. */
  function SplitRing(): Graph {
    map[1 := Parent(0, 0, true, [ITuple(0, 2), ITuple(10, 3)]),
        2 := SplitLeaf(0, 4), 3 := Leaf(0, 0, []),
        4 := SplitLeaf(2, 5), 5 := SplitLeaf(4, 6), 6 := SplitLeaf(5, 5)]
  }

  lemma SplitRingLap()
    ensures ChildHighKey(SplitRing(), SplitRing()[1], None, ChildState(4, true), 2) == Revisits
  {
    var g, x := SplitRing(), [4, 5, 6, 5];
    assert x[1] == x[3] && Steps(g, x);
    assert ChildLap(g, g[1], None, ChildState(4, true), 2, x);
    ChildWalkGoesRoundIff(g, g[1], None, ChildState(4, true), 2);
  }

  /** The pages of a chain of unfinished splits are stepped over, so the search for the
      second downlink never ends. */
  lemma ChildWalkThroughSplits()
    ensures CheckLevel(SplitRing(), Level(1, 1, true)) == EndlessPage
  {
    var g, level := SplitRing(), Level(1, 1, true);
    var t, st := g[1], ChildState(4, true);
    assert Leftmost(g, 1) == Pass(true) && Leftmost(g, 2) == Pass(true);
    assert ChildHighKey(g, t, None, CHILD_START, 1) == Pass(st);
    SplitRingLap();
    assert ItemsLoop(g, t, None, st, 2) == Revisits;
    assert ItemsLoop(g, t, None, CHILD_START, 1) == Revisits;
  }

  /** A parent over two leaves, the first of which links to the invalid block number. */
  function Broken(): Graph {
    map[1 := Parent(0, 0, true, [ITuple(0, 2), ITuple(10, 3)]),
        2 := Leaf(0, INVALID_BLOCK, [ITuple(10, 0)]),
        3 := Leaf(0, 0, [])]
  }

  /** A right link equal to InvalidBlockNumber reads as "no previous child", so the chain
      may start afresh: without that hypothesis lockstep fails. */
  lemma InvalidLinkRestartsTheChain()
    ensures CheckLevel(Broken(), Level(1, 1, true)) == Accepted(2)
    ensures Broken()[2].next != 3
  {
    var g, level := Broken(), Level(1, 1, true);
    var t := g[1];
    assert Leftmost(g, 1) == Pass(true) && Leftmost(g, 2) == Pass(true) && Leftmost(g, 3) == Pass(true);
    var st1 := ChildState(INVALID_BLOCK, false);
    assert ChildHighKey(g, t, None, CHILD_START, 1) == Pass(st1);
    assert ChildHighKey(g, t, None, st1, 2) == Pass(ChildState(0, false));
    assert ChildCheck(g, t, None, st1, 2) == Pass(ChildState(0, false));
    assert ItemsLoop(g, t, None, ChildState(0, false), 3) == Pass(CHILD_START);
    assert ItemsLoop(g, t, None, st1, 2) == Pass(CHILD_START);
    assert ItemsLoop(g, t, None, CHILD_START, 1) == Pass(CHILD_START);
  }

  /** Two parents over four leaves. Leaf 5 is the first child of the second parent; its
      item 8 belongs below 10, the high key of the first parent. */
  function Cousins(): Graph {
    map[1 := Parent(0, 2, true, [ITuple(10, 0), ITuple(0, 3), ITuple(5, 4)]),
        2 := Parent(1, 0, true, [ITuple(0, 5), ITuple(20, 6)]),
        3 := Leaf(0, 4, [ITuple(5, 0), ITuple(1, 0)]),
        4 := Leaf(3, 5, [ITuple(10, 0), ITuple(7, 0)]),
        5 := Leaf(4, 6, [ITuple(20, 0), ITuple(8, 0)]),
        6 := Leaf(5, 0, [ITuple(25, 0)])]
  }

  lemma CousinsLeftParent()
    ensures TargetPage(Cousins(), Cousins()[1], None, CHILD_START) == Pass(ChildState(5, false))
  {
    var g := Cousins();
    var t, s3, s4 := g[1], ChildState(4, false), ChildState(5, false);
    assert Leftmost(g, 3) == Pass(true);
    assert ChildHighKey(g, t, None, CHILD_START, 2) == Pass(s3);
    assert ChildHighKey(g, t, None, s3, 3) == Pass(s4);
    assert RightPage(g, 2, g.Keys) == Pass(2);
    assert ItemsLoop(g, t, None, s3, 3) == Pass(s4);
  }

  lemma CousinsRightParent()
    ensures TargetPage(Cousins(), Cousins()[2], Some(ITuple(10, 0)), ChildState(5, false)) == Pass(CHILD_START)
  {
    var g, low := Cousins(), Some(ITuple(10, 0));
    var u, s4, s5, s6 := g[2], ChildState(5, false), ChildState(6, false), ChildState(0, false);
    assert ChildHighKey(g, u, low, s4, 1) == Pass(s5);
    assert ChildHighKey(g, u, low, s5, 2) == Pass(s6);
    assert ItemsLoop(g, u, low, s6, 3) == Pass(CHILD_START);
    assert ItemsLoop(g, u, low, s5, 2) == Pass(CHILD_START);
  }

  lemma CousinsUpperLevel()
    ensures CheckLevel(Cousins(), Level(1, 1, true)) == Accepted(3)
  {
    var g, level := Cousins(), Level(1, 1, true);
    var t, u, low := g[1], g[2], Some(ITuple(10, 0));
    assert Leftmost(g, 1) == Pass(true);
    var s4 := ChildState(5, false);
    CousinsLeftParent();
    CousinsRightParent();
    var w1 := Walk(1, 2, 3, s4, low);
    assert LevelLoop(g, level, w1, g.Keys - {1}) == Accepted(3);
  }

  lemma CousinsRightLeaves()
    ensures LevelLoop(Cousins(), Level(0, 3, false), Walk(4, 5, 0, CHILD_START, Some(ITuple(10, 0))),
                      Cousins().Keys - {3} - {4}) == Accepted(0)
  {
    var g, level := Cousins(), Level(0, 3, false);
    assert RightPage(g, 6, g.Keys) == Pass(6);
    var w6 := Walk(5, 6, 0, CHILD_START, Some(ITuple(20, 0)));
    assert LevelLoop(g, level, w6, g.Keys - {3} - {4} - {5}) == Accepted(0);
  }

  lemma CousinsLeafLevel()
    ensures CheckLevel(Cousins(), Level(0, 3, false)) == Accepted(P_NONE)
  {
    var g, level := Cousins(), Level(0, 3, false);
    assert Leftmost(g, 3) == Pass(true);
    assert RightPage(g, 4, g.Keys) == Pass(4) && RightPage(g, 5, g.Keys) == Pass(5);
    CousinsRightLeaves();
    var w4 := Walk(3, 4, 0, CHILD_START, Some(ITuple(5, 0)));
    assert LevelLoop(g, level, w4, g.Keys - {3}) == Accepted(0);
  }

  /** Both levels are accepted, yet an item sits under a first downlink although it is
      below the separator between the two parents: a search for it goes elsewhere. */
  lemma CousinItemsEscape()
    ensures CheckLevel(Cousins(), Level(1, 1, true)) == Accepted(3)
    ensures CheckLevel(Cousins(), Level(0, 3, false)) == Accepted(P_NONE)
    ensures Line(Cousins()[5], 2).key < Cousins()[1].lines[0].key
  {
    CousinsUpperLevel();
    CousinsLeafLevel();
  }

  /** A root over two leaves, and a deleted page that nothing links to. */
  function SmallTree(): Graph {
    map[1 := Parent(0, 0, true, [ITuple(0, 2), ITuple(10, 3)]),
        2 := Leaf(0, 3, [ITuple(10, 0), ITuple(4, 0)]),
        3 := Leaf(2, 0, [ITuple(15, 0)]),
        4 := BtPage(0, 0, 0, true, false, true, false, false, true, [])]
  }

  lemma SmallTreeRoot()
    ensures CheckLevel(SmallTree(), Level(1, 1, true)) == Accepted(2)
  {
    var g, level := SmallTree(), Level(1, 1, true);
    var t, s2, s3 := g[1], ChildState(3, false), ChildState(0, false);
    assert Leftmost(g, 1) == Pass(true) && Leftmost(g, 2) == Pass(true);
    assert ChildHighKey(g, t, None, CHILD_START, 1) == Pass(s2);
    assert ChildHighKey(g, t, None, s2, 2) == Pass(s3);
    assert ItemsLoop(g, t, None, s3, 3) == Pass(CHILD_START);
    assert ItemsLoop(g, t, None, s2, 2) == Pass(CHILD_START);
  }

  lemma SmallTreeLeaves()
    ensures CheckLevel(SmallTree(), Level(0, 2, false)) == Accepted(P_NONE)
  {
    var g, level := SmallTree(), Level(0, 2, false);
    assert Leftmost(g, 2) == Pass(true) && RightPage(g, 3, g.Keys) == Pass(3);
    assert LevelLoop(g, level, Walk(2, 3, 0, CHILD_START, Some(ITuple(10, 0))), g.Keys - {2}) == Accepted(0);
  }

  lemma SmallTreePages(b: nat)
    ensures LiveAt(SmallTree(), b, 1) <==> b == 1
    ensures LiveAt(SmallTree(), b, 0) <==> b == 2 || b == 3
    ensures !LiveAt(SmallTree(), b, -1) && (b in SmallTree() ==> !SmallTree()[b].halfDead)
  {
  }

  lemma SmallTreeSettled(l: nat)
    requires l <= 1
    ensures Settled(SmallTree(), l)
  {
    var g := SmallTree();
    forall b: nat | LiveAt(g, b, l - 1)
      ensures !g[b].halfDead && !g[b].incompleteSplit && !g[b].root && !LeadsToDeleted(g, g[b].next)
    {
      SmallTreePages(b);
    }
    forall b: nat | LiveAt(g, b, l) && l > 0 ensures SoundDownlinks(g, g[b]) {
      SmallTreePages(b);
    }
    forall h | h in g ensures !g[h].halfDead {
      SmallTreePages(h);
    }
  }

  lemma SmallTreeQuiescent()
    ensures Quiescent(SmallTree(), 1)
  {
    forall b | b in SmallTree() ensures !SmallTree()[b].halfDead {
      SmallTreePages(b);
    }
    forall l: nat | l <= 1 ensures Settled(SmallTree(), l) {
      SmallTreeSettled(l);
    }
  }

  /** An ordinary index, its root flagged as such, meets everything that is asked of a tree
      in BtreeTree, and one of its descents is the path from the root to the item 15. */
  lemma OrdinaryTree()
    ensures CheckTree(SmallTree(), Level(1, 1, true)).Accepted? && Quiescent(SmallTree(), 1) && SmallTree()[1].root
    ensures Descent(SmallTree(), [Place(1, 2), Place(3, 1)]) && Real(SmallTree(), Place(3, 1))
    ensures 1 in Reached(SmallTree(), Chain(SmallTree(), 1, SmallTree().Keys), 0)
  {
    SmallTreeRoot();
    SmallTreeLeaves();
    SmallTreeQuiescent();
    ChainSteps(SmallTree(), 1, SmallTree().Keys);
  }
}
