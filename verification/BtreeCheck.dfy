/** The verification loops themselves, with the state they update page by page. */
module BtreeCheck {
  import opened Optional
  import opened BtreeSpec
  import opened BtreeTree

  class BtreeCheckState {
    const g: Graph
    var target: BtPage
    var targetblock: nat
    var lowkey: MaybeTuple
    var prevrightlink: nat
    var previncompletesplit: bool

    constructor (g: Graph, target: BtPage)
      ensures this.g == g && lowkey.None?
    {
      this.g := g;
      this.target := target;
      targetblock, lowkey := P_NONE, None;
      prevrightlink, previncompletesplit := INVALID_BLOCK, false;
    }

    ghost function Children(): ChildState
      reads this
    {
      ChildState(prevrightlink, previncompletesplit)
    }

    method LeftmostIgnoringHalfDead(start: nat) returns (v: Verdict<bool>)
      requires start in g
      ensures v == Leftmost(g, start)
    {
      var reached, reachedFrom, allHalfDead := g[start].prev, start, true;
      var unseen := g.Keys;
      while reached != P_NONE && allHalfDead
        invariant allHalfDead ==> LeftmostLoop(g, start, reachedFrom, reached, unseen) == Leftmost(g, start)
        invariant !allHalfDead ==> Leftmost(g, start) == Pass(false)
        decreases allHalfDead, unseen
      {
        if reached !in g {
          return Corrupt;
        }
        var pg := g[reached];
        allHalfDead := pg.halfDead && reached != start && reached != reachedFrom && pg.next == reachedFrom;
        if allHalfDead {
          if reached !in unseen {
            return Revisits;
          }
          unseen := unseen - {reached};
          reachedFrom := reached;
          reached := pg.prev;
        }
      }
      v := Pass(allHalfDead);
    }

    method DownlinkMissingCheck(rightsplit: bool, blkno: nat) returns (ok: bool)
      requires blkno in g
      ensures ok == MissingDownlinkOk(g, rightsplit, blkno)
    {
      var pg := g[blkno];
      if pg.root || rightsplit {
        return true;
      }
      if pg.leaf || FirstDataKey(pg) > MaxOffset(pg) {
        return false;
      }
      var level := pg.level;
      var child := Line(pg, FirstDataKey(pg)).downlink;
      ghost var goal := Descend(g, level, child);
      while child in g && !g[child].leaf
        invariant Descend(g, level, child) == goal
        decreases level
      {
        if g[child].level + 1 != level || FirstDataKey(g[child]) > MaxOffset(g[child]) {
          return false;
        }
        level := g[child].level;
        child := Line(g[child], FirstDataKey(g[child])).downlink;
      }
      if child !in g || g[child].deleted {
        return false;
      }
      if g[child].halfDead && !Rightmost(g[child]) && MaxOffset(g[child]) >= 1 {
        return g[child].lines[0].downlink == blkno;
      }
      return false;
    }

    /** Follows right links on the child level from the previous downlink's child to
        the one at offset off of the target, 0 meaning to the end of the level. */
    method ChildHighKeyCheck(off: nat) returns (v: Verdict<ChildState>)
      requires off <= MaxOffset(target)
      modifies this`prevrightlink, this`previncompletesplit
      ensures v == ChildHighKey(g, target, lowkey, old(Children()), off)
      ensures Children() == if v.Pass? then v.value else old(Children())
    {
      ghost var st := Children();
      var blkno: nat, rightsplit, first := prevrightlink, previncompletesplit, true;
      var downlink := if off == 0 then P_NONE else Line(target, off).downlink;
      if blkno == INVALID_BLOCK {
        blkno, rightsplit := downlink, false;
      }
      var unseen := g.Keys;
      while true
        invariant st == Children()
        invariant ChildLoop(g, target, lowkey, st, off, downlink, blkno, rightsplit, first, unseen) ==
                  ChildHighKey(g, target, lowkey, st, off)
        decreases unseen
      {
        if blkno == P_NONE && downlink == P_NONE {
          prevrightlink, previncompletesplit := INVALID_BLOCK, false;
          return Pass(CHILD_START);
        }
        if blkno == P_NONE || blkno !in g {
          return Corrupt;
        }
        var ok := CheckChildPage(off, downlink, blkno, rightsplit, first);
        if !ok {
          return Corrupt;
        }
        var pg := g[blkno];
        rightsplit := pg.incompleteSplit;
        if blkno == downlink {
          prevrightlink, previncompletesplit := pg.next, rightsplit;
          return Pass(ChildState(pg.next, rightsplit));
        }
        if blkno !in unseen {
          return Revisits;
        }
        unseen := unseen - {blkno};
        blkno := pg.next;
        first := false;
      }
    }

    method CheckChildPage(off: nat, downlink: nat, blkno: nat, rightsplit: bool, first: bool) returns (ok: bool)
      requires blkno in g
      ensures ok == ChildPageOk(g, target, lowkey, Children(), off, downlink, blkno, rightsplit, first)
    {
      var pg := g[blkno];
      if first && prevrightlink == INVALID_BLOCK {
        var l := LeftmostIgnoringHalfDead(blkno);
        if l != Pass(true) {
          return false;
        }
      }
      if (!pg.deleted || pg.fullXid) && pg.level != target.level - 1 {
        return false;
      }
      if (!first && blkno == prevrightlink) || blkno == pg.prev {
        return false;
      }
      if blkno != downlink && !Ignore(pg) {
        var tolerated := DownlinkMissingCheck(rightsplit, blkno);
        if !tolerated {
          return false;
        }
      }
      if !pg.incompleteSplit && !Rightmost(pg) && !pg.halfDead {
        return HighKeyMatches(target, lowkey, off, blkno == downlink, pg);
      }
      return true;
    }

    /** A downlink's key is a strict lower bound of everything on the child page. */
    method CheckDownlink(off: nat) returns (v: Verdict<ChildState>)
      requires 1 <= off <= MaxOffset(target)
      modifies this`prevrightlink, this`previncompletesplit
      ensures v == ChildCheck(g, target, lowkey, old(Children()), off)
      ensures v.Pass? ==> Children() == v.value
    {
      var child := Line(target, off).downlink;
      if child !in g {
        return Corrupt;
      }
      v := ChildHighKeyCheck(off);
      if !v.Pass? {
        return;
      }
      if g[child].deleted {
        return Corrupt;
      }
      var pg := g[child];
      var o := FirstDataKey(pg);
      while o <= MaxOffset(pg)
        invariant FirstDataKey(pg) <= o
        invariant forall i :: FirstReal(pg) <= i < o && i <= MaxOffset(pg) ==> Line(target, off).key < Line(pg, i).key
      {
        if !OffsetIsNegativeInfinity(pg, o) && !(Line(target, off).key < Line(pg, o).key) {
          return Corrupt;
        }
        o := o + 1;
      }
    }

    method RightPageOrder(key: int) returns (v: Verdict<()>)
      ensures v == RightOrder(g, target, key)
    {
      if Rightmost(target) {
        return Pass(());
      }
      var b := target.next;
      var unseen := g.Keys;
      while b in g && Ignore(g[b]) && !Rightmost(g[b])
        invariant RightPage(g, b, unseen) == RightPage(g, target.next, g.Keys)
        decreases unseen
      {
        if b !in unseen {
          return Revisits;
        }
        unseen := unseen - {b};
        b := g[b].next;
      }
      if b !in g {
        return Corrupt;
      }
      if FirstReal(g[b]) <= MaxOffset(g[b]) && !(Line(g[b], FirstReal(g[b])).key > key) {
        return Corrupt;
      }
      v := Pass(());
    }

    /** bt_target_page_check on the current target. */
    method TargetPageCheck() returns (v: Verdict<ChildState>)
      modifies this`prevrightlink, this`previncompletesplit
      ensures v == TargetPage(g, target, lowkey, old(Children()))
      ensures v.Pass? ==> Children() == v.value
    {
      if !Rightmost(target) && MaxOffset(target) < 1 {
        return Corrupt;
      }
      var off := FirstDataKey(target);
      while off <= MaxOffset(target)
        invariant 1 <= off
        invariant ItemsLoop(g, target, lowkey, Children(), off) == TargetPage(g, target, lowkey, old(Children()))
      {
        var r := ItemCheck(off);
        if !r.Pass? {
          return r;
        }
        off := off + 1;
      }
      if !target.leaf && Rightmost(target) {
        v := ChildHighKeyCheck(0);
      } else {
        v := Pass(ChildState(prevrightlink, previncompletesplit));
      }
    }

    /** One turn of the item loop. */
    method ItemCheck(off: nat) returns (v: Verdict<ChildState>)
      requires 1 <= off <= MaxOffset(target)
      modifies this`prevrightlink, this`previncompletesplit
      ensures v.Pass? ==> Children() == v.value
      ensures ItemsLoop(g, target, lowkey, old(Children()), off) ==
              if v.Pass? then ItemsLoop(g, target, lowkey, v.value, off + 1) else v
    {
      if OffsetIsNegativeInfinity(target, off) {
        v := ChildHighKeyCheck(off);
        return;
      }
      if !ItemOrderOk(target, off) {
        return Corrupt;
      }
      if off == MaxOffset(target) {
        var right := RightPageOrder(Line(target, off).key);
        if !right.Pass? {
          return right.PropagateFailure();
        }
      }
      if target.leaf {
        v := Pass(ChildState(prevrightlink, previncompletesplit));
      } else {
        v := CheckDownlink(off);
      }
    }

    /** What the level loop comes to, in its first or second lap. */
    static ghost function Resolved(g: Graph, level: Level, o: Outcome, second: bool): Outcome {
      if second then Final(o) else if o.Round? then Final(LevelLoop(g, level, o.w, g.Keys)) else o
    }

    /** bt_check_level_from_leftmost: the leftmost block one level down, if accepted. The C
        code keeps no record of the pages it has left; it goes on where EndlessLevel is
        returned. */
    method CheckLevelFromLeftmost(level: Level) returns (v: Outcome)
      modifies this
      ensures v == CheckLevel(g, level)
    {
      var leftcurrent: nat, current: nat, nextLeft: nat := P_NONE, level.leftmost, INVALID_BLOCK;
      prevrightlink, previncompletesplit, lowkey := INVALID_BLOCK, false, None;
      var unseen, second := g.Keys, false;
      while true
        invariant Resolved(g, level, LevelLoop(g, level, Walk(leftcurrent, current, nextLeft, Children(), lowkey), unseen),
                           second) == CheckLevel(g, level)
        decreases !second, unseen
      {
        if current !in g {
          return Rejected;
        }
        if current !in unseen {
          if second {
            return EndlessLevel;
          }
          second, unseen := true, g.Keys;
        }
        ghost var w := Walk(leftcurrent, current, nextLeft, Children(), lowkey);
        targetblock, target := current, g[current];
        var r := CheckPage(level, leftcurrent, nextLeft);
        if !r.Pass? {
          return if r.Corrupt? then Rejected else EndlessPage;
        }
        nextLeft := r.value;
        if current == leftcurrent || current == target.prev {
          return Rejected;
        }
        if !Rightmost(target) && MaxOffset(target) < 1 {
          return Rejected;
        }
        leftcurrent, current := current, target.next;
        lowkey := if Rightmost(target) then None else Some(target.lines[0]);
        assert Walk(leftcurrent, current, nextLeft, Children(), lowkey) == NextWalk(target, w, (nextLeft, Children()));
        if current == P_NONE {
          return Accepted(nextLeft);
        }
        unseen := unseen - {leftcurrent};
      }
    }

    /** bt_check_every_level, given the true root and its level from the metapage. */
    method CheckEveryLevel(root: nat, rootLevel: nat) returns (v: Outcome)
      modifies this
      ensures v == CheckTree(g, Level(rootLevel, root, true))
    {
      var current := Level(rootLevel, root, true);
      while current.leftmost != P_NONE
        invariant CheckTree(g, current) == CheckTree(g, Level(rootLevel, root, true))
        decreases current.level, current.leftmost != P_NONE
      {
        v := CheckLevelFromLeftmost(current);
        if !v.Accepted? {
          return;
        }
        if v.nextLeft == INVALID_BLOCK {
          return Rejected;
        }
        LeafLevelIsLast(g, current);
        current := Level(if current.level == 0 then 0 else current.level - 1, v.nextLeft, false);
      }
      v := Accepted(P_NONE);
    }

    method CheckPage(level: Level, leftcurrent: nat, nextLeft: nat) returns (v: Verdict<nat>)
      requires targetblock in g && target == g[targetblock]
      modifies this`prevrightlink, this`previncompletesplit
      ensures var r := VisitPage(g, level, Walk(leftcurrent, targetblock, nextLeft, old(Children()), lowkey));
              if v.Pass? then r == Pass((v.value, Children())) else r == v.PropagateFailure()
    {
      if Ignore(target) {
        if target.deleted || Rightmost(target) {
          return Corrupt;
        }
        return Pass(nextLeft);
      }
      v := CheckFirstPage(level, nextLeft);
      if !v.Pass? {
        return;
      }
      if target.prev != leftcurrent && leftcurrent != P_NONE {
        return Corrupt;
      }
      if target.level != level.level {
        return Corrupt;
      }
      var r := TargetPageCheck();
      if !r.Pass? {
        return r.PropagateFailure();
      }
    }

    method CheckFirstPage(level: Level, nextLeft: nat) returns (v: Verdict<nat>)
      requires targetblock in g && target == g[targetblock]
      ensures forall leftcurrent, st :: v == FirstPage(g, level, Walk(leftcurrent, targetblock, nextLeft, st, lowkey))
    {
      if nextLeft != INVALID_BLOCK {
        return Pass(nextLeft);
      }
      var l := LeftmostIgnoringHalfDead(targetblock);
      if !l.Pass? {
        return l.PropagateFailure();
      }
      if !l.value || (level.trueRoot && !target.root && !target.incompleteSplit) {
        return Corrupt;
      }
      if target.leaf {
        return Pass(P_NONE);
      }
      if FirstDataKey(target) > MaxOffset(target) {
        return Corrupt;
      }
      v := Pass(Line(target, FirstDataKey(target)).downlink);
    }
  }
}
