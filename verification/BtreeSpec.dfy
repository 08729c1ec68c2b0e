/** B-tree verification in readonly mode as functions of an arbitrary page graph
    (contrib/amcheck/verify_nbtree.c). Pages that cannot be read, or that fail the
    sanity checks made on every page read, are left out of the graph. */
module BtreeSpec {
  import opened Optional

  const P_NONE := 0
  const INVALID_BLOCK := 0xFFFF_FFFF

  /** An index tuple. Keys stand for any totally ordered key space; all of a pivot but
      its block number takes part in comparisons and in pivot identity. In the high
      key of a half-dead leaf, downlink holds the top-parent link. */
  datatype ITuple = ITuple(key: int, downlink: nat)

  /** lines[0] is the high key unless the page is rightmost; offset n is lines[n-1]. */
  datatype BtPage = BtPage(
    prev: nat, next: nat, level: nat,
    leaf: bool, root: bool, deleted: bool, halfDead: bool, incompleteSplit: bool, fullXid: bool,
    lines: seq<ITuple>)

  type MaybeTuple = Option<ITuple>

  predicate Rightmost(pg: BtPage) {
    pg.next == P_NONE
  }

  predicate Ignore(pg: BtPage) {
    pg.deleted || pg.halfDead
  }

  /** P_FIRSTDATAKEY as an offset. */
  function FirstDataKey(pg: BtPage): nat {
    if Rightmost(pg) then 1 else 2
  }

  function MaxOffset(pg: BtPage): nat {
    |pg.lines|
  }

  /** The checks palloc_btree_page makes on every page but the metapage. */
  predicate Sane(pg: BtPage) {
    && (!pg.deleted || pg.fullXid ==> (pg.leaf <==> pg.level == 0))
    && (!pg.leaf && !pg.deleted ==> FirstDataKey(pg) <= MaxOffset(pg))
    && (pg.leaf && !pg.deleted && !Rightmost(pg) ==> 1 <= MaxOffset(pg))
    && (!pg.leaf ==> !pg.halfDead)
    && (pg.fullXid ==> pg.deleted)
    && !(pg.deleted && pg.halfDead)
  }

  type Graph = g: map<nat, BtPage> |
      INVALID_BLOCK !in g && forall b :: b in g && b != P_NONE ==> Sane(g[b])
    witness map[]

  /** Pass: nothing reported. Corrupt: an error was raised. Revisits: a loop is about to
      leave, a second time, a page it has left before; the C code goes on. */
  datatype Verdict<+T> =
    | Pass(value: T)
    | Corrupt
    | Revisits
  {
    predicate IsFailure() {
      !Pass?
    }

    function PropagateFailure<U>(): Verdict<U>
      requires !Pass?
    {
      if Corrupt? then Corrupt else Revisits
    }

    function Extract(): T
      requires Pass?
    {
      value
    }
  }

  function OffsetIsNegativeInfinity(pg: BtPage, off: nat): bool {
    !pg.leaf && off == FirstDataKey(pg)
  }

  /** First offset that is neither the high key nor negative infinity. */
  function FirstReal(pg: BtPage): nat {
    if pg.leaf then FirstDataKey(pg) else FirstDataKey(pg) + 1
  }

  function Line(pg: BtPage, off: nat): ITuple
    requires 1 <= off <= MaxOffset(pg)
  {
    pg.lines[off - 1]
  }

  // ----- bt_leftmost_ignoring_half_dead

  function LeftmostLoop(g: Graph, start: nat, from: nat, reached: nat, unseen: set<nat>): Verdict<bool>
    decreases unseen
  {
    if reached == P_NONE then Pass(true)
    else if reached !in g then Corrupt
    else
      var pg := g[reached];
      if pg.halfDead && reached != start && reached != from && pg.next == from then
        if reached !in unseen then Revisits
        else LeftmostLoop(g, start, reached, pg.prev, unseen - {reached})
      else Pass(false)
  }

  function Leftmost(g: Graph, start: nat): Verdict<bool>
    requires start in g
  {
    LeftmostLoop(g, start, start, g[start].prev, g.Keys)
  }

  // ----- bt_downlink_missing_check

  /** The leaf reached through first downlinks from an internal page of this level. */
  function Descend(g: Graph, level: nat, child: nat): (r: Verdict<nat>)
    ensures r.Pass? ==> r.value in g
    decreases level
  {
    if child !in g then Corrupt
    else if g[child].leaf then Pass(child)
    else if g[child].level != level - 1 then Corrupt
    else if FirstDataKey(g[child]) > MaxOffset(g[child]) then Corrupt
    else Descend(g, g[child].level, Line(g[child], FirstDataKey(g[child])).downlink)
  }

  /** A page without a downlink is tolerated. */
  function MissingDownlinkOk(g: Graph, rightsplit: bool, blkno: nat): bool
    requires blkno in g
  {
    var pg := g[blkno];
    if pg.root || rightsplit then true
    else if pg.leaf then false
    else if FirstDataKey(pg) > MaxOffset(pg) then false
    else
      var r := Descend(g, pg.level, Line(pg, FirstDataKey(pg)).downlink);
      && r.Pass?
      && var leaf := g[r.value];
         !leaf.deleted && leaf.halfDead && !Rightmost(leaf) && MaxOffset(leaf) >= 1 && leaf.lines[0].downlink == blkno
  }

  // ----- bt_child_highkey_check

  /** prevrightlink and previncompletesplit */
  datatype ChildState = ChildState(rightlink: nat, incompleteSplit: bool)

  const CHILD_START := ChildState(INVALID_BLOCK, false)

  /** The key on the target level that a child's high key must equal; None is an error.
      off is the downlink's offset, 0 for the call that finishes a level. */
  function PivotFor(t: BtPage, lowkey: MaybeTuple, off: nat, isDownlink: bool): MaybeTuple {
    var pivot := if isDownlink then off + 1 else off;
    if OffsetIsNegativeInfinity(t, pivot) then lowkey
    else if pivot > MaxOffset(t) then
      if Rightmost(t) || MaxOffset(t) < 1 then None else Some(t.lines[0])
    else if pivot < 1 then None
    else Some(Line(t, pivot))
  }

  predicate HighKeyMatches(t: BtPage, lowkey: MaybeTuple, off: nat, isDownlink: bool, pg: BtPage) {
    && MaxOffset(pg) >= 1
    && var pivot := PivotFor(t, lowkey, off, isDownlink);
       pivot.Some? && pivot.value.key == pg.lines[0].key
  }

  /** What one turn of the child loop demands of the page it stands on. */
  predicate ChildPageOk(g: Graph, t: BtPage, lowkey: MaybeTuple, st: ChildState, off: nat, downlink: nat,
                        blkno: nat, rightsplit: bool, first: bool)
    requires blkno in g
  {
    var pg := g[blkno];
    && (first && st.rightlink == INVALID_BLOCK ==> Leftmost(g, blkno) == Pass(true))
    && (!pg.deleted || pg.fullXid ==> pg.level == t.level - 1)
    && !(!first && blkno == st.rightlink) && blkno != pg.prev
    && (blkno != downlink && !Ignore(pg) ==> MissingDownlinkOk(g, rightsplit, blkno))
    && (!pg.incompleteSplit && !Rightmost(pg) && !pg.halfDead ==>
          HighKeyMatches(t, lowkey, off, blkno == downlink, pg))
  }

  function ChildLoop(g: Graph, t: BtPage, lowkey: MaybeTuple, st: ChildState, off: nat, downlink: nat,
                     blkno: nat, rightsplit: bool, first: bool, unseen: set<nat>): Verdict<ChildState>
    decreases unseen
  {
    if blkno == P_NONE && downlink == P_NONE then Pass(CHILD_START)
    else if blkno == P_NONE || blkno !in g then Corrupt
    else if !ChildPageOk(g, t, lowkey, st, off, downlink, blkno, rightsplit, first) then Corrupt
    else
      var pg := g[blkno];
      if blkno == downlink then Pass(ChildState(pg.next, pg.incompleteSplit))
      else if blkno !in unseen then Revisits
      else ChildLoop(g, t, lowkey, st, off, downlink, pg.next, pg.incompleteSplit, false, unseen - {blkno})
  }

  function ChildHighKey(g: Graph, t: BtPage, lowkey: MaybeTuple, st: ChildState, off: nat): Verdict<ChildState>
    requires off <= MaxOffset(t)
  {
    var downlink := if off == 0 then P_NONE else Line(t, off).downlink;
    if st.rightlink == INVALID_BLOCK
    then ChildLoop(g, t, lowkey, st, off, downlink, downlink, false, true, g.Keys)
    else ChildLoop(g, t, lowkey, st, off, downlink, st.rightlink, st.incompleteSplit, true, g.Keys)
  }

  // ----- bt_child_check

  /** Every real item of a page is above the key. */
  predicate AllAbove(pg: BtPage, key: int) {
    forall o :: FirstReal(pg) <= o <= MaxOffset(pg) ==> key < Line(pg, o).key
  }

  function ChildCheck(g: Graph, t: BtPage, lowkey: MaybeTuple, st: ChildState, off: nat): Verdict<ChildState>
    requires 1 <= off <= MaxOffset(t)
  {
    var child := Line(t, off).downlink;
    if child !in g then Corrupt
    else
      var st' :- ChildHighKey(g, t, lowkey, st, off);
      if g[child].deleted || !AllAbove(g[child], Line(t, off).key) then Corrupt else Pass(st')
  }

  // ----- bt_right_page_check_scankey

  /** The first page to the right that is not ignorable, or the last page. */
  function RightPage(g: Graph, b: nat, unseen: set<nat>): (r: Verdict<nat>)
    ensures r.Pass? ==> r.value in g
    decreases unseen
  {
    if b !in g then Corrupt
    else if !Ignore(g[b]) || Rightmost(g[b]) then Pass(b)
    else if b !in unseen then Revisits
    else RightPage(g, g[b].next, unseen - {b})
  }

  /** The last real item of a page is below the first real item to its right, if any. */
  function RightOrder(g: Graph, t: BtPage, key: int): Verdict<()> {
    if Rightmost(t) then Pass(())
    else
      var b :- RightPage(g, t.next, g.Keys);
      if FirstReal(g[b]) <= MaxOffset(g[b]) && !(Line(g[b], FirstReal(g[b])).key > key) then Corrupt else Pass(())
  }

  // ----- bt_target_page_check

  /** High-key and item-order checks of one real item. */
  predicate ItemOrderOk(t: BtPage, off: nat)
    requires 1 <= off <= MaxOffset(t)
  {
    && (!Rightmost(t) ==>
          if t.leaf then Line(t, off).key <= t.lines[0].key else Line(t, off).key < t.lines[0].key)
    && (off < MaxOffset(t) ==> Line(t, off).key < Line(t, off + 1).key)
  }

  function ItemsLoop(g: Graph, t: BtPage, lowkey: MaybeTuple, st: ChildState, off: nat): Verdict<ChildState>
    requires 1 <= off
    decreases MaxOffset(t) + 1 - off
  {
    if off > MaxOffset(t) then
      if !t.leaf && Rightmost(t) then ChildHighKey(g, t, lowkey, st, 0) else Pass(st)
    else if OffsetIsNegativeInfinity(t, off) then
      var st' :- ChildHighKey(g, t, lowkey, st, off);
      ItemsLoop(g, t, lowkey, st', off + 1)
    else if !ItemOrderOk(t, off) then Corrupt
    else
      var _ :- if off == MaxOffset(t) then RightOrder(g, t, Line(t, off).key) else Pass(());
      var st' :- if t.leaf then Pass(st) else ChildCheck(g, t, lowkey, st, off);
      ItemsLoop(g, t, lowkey, st', off + 1)
  }

  function TargetPage(g: Graph, t: BtPage, lowkey: MaybeTuple, st: ChildState): Verdict<ChildState> {
    if !Rightmost(t) && MaxOffset(t) < 1 then Corrupt
    else ItemsLoop(g, t, lowkey, st, FirstDataKey(t))
  }

  // ----- bt_check_level_from_leftmost

  datatype Level = Level(level: nat, leftmost: nat, trueRoot: bool)

  /** The mutable variables of the level loop. */
  datatype Walk = Walk(leftcurrent: nat, current: nat, nextLeft: nat, st: ChildState, lowkey: MaybeTuple)

  function StartWalk(level: Level): Walk {
    Walk(P_NONE, level.leftmost, INVALID_BLOCK, CHILD_START, None)
  }

  /** The level-wide checks made on the first page that is not ignorable. */
  function FirstPage(g: Graph, level: Level, w: Walk): Verdict<nat>
    requires w.current in g
  {
    var pg := g[w.current];
    if w.nextLeft != INVALID_BLOCK then Pass(w.nextLeft)
    else
      var isLeftmost :- Leftmost(g, w.current);
      if !isLeftmost || (level.trueRoot && !pg.root && !pg.incompleteSplit) then Corrupt
      else if pg.leaf then Pass(P_NONE)
      else if FirstDataKey(pg) > MaxOffset(pg) then Corrupt
      else Pass(Line(pg, FirstDataKey(pg)).downlink)
  }

  /** Checks of one page of the level; yields nextLeft and the child state after it. */
  function VisitPage(g: Graph, level: Level, w: Walk): Verdict<(nat, ChildState)>
    requires w.current in g
  {
    var pg := g[w.current];
    if Ignore(pg) then
      if pg.deleted || Rightmost(pg) then Corrupt else Pass((w.nextLeft, w.st))
    else
      var nextLeft :- FirstPage(g, level, w);
      if (pg.prev != w.leftcurrent && w.leftcurrent != P_NONE) || pg.level != level.level then Corrupt
      else
        var st :- TargetPage(g, pg, w.lowkey, w.st);
        Pass((nextLeft, st))
  }

  function NextWalk(pg: BtPage, w: Walk, v: (nat, ChildState)): Walk {
    Walk(w.current, pg.next, v.0, v.1, if Rightmost(pg) || MaxOffset(pg) < 1 then None else Some(pg.lines[0]))
  }

  /** What became of a level: accepted, with the leftmost block one level down; an error;
      a loop within one page's checks that does not end; or a walk that does not end. One lap
      of the level loop may also end by going Round: it stands at a page it has left before. */
  datatype Outcome = Accepted(nextLeft: nat) | Rejected | EndlessPage | EndlessLevel | Round(w: Walk)

  function LevelLoop(g: Graph, level: Level, w: Walk, unseen: set<nat>): (o: Outcome)
    ensures o != EndlessLevel
    decreases unseen
  {
    if w.current !in g then Rejected
    else if w.current !in unseen then Round(w)
    else
      var pg := g[w.current];
      match VisitPage(g, level, w)
      case Corrupt => Rejected
      case Revisits => EndlessPage
      case Pass(v) =>
        if w.current == w.leftcurrent || w.current == pg.prev then Rejected
        else if !Rightmost(pg) && MaxOffset(pg) < 1 then Rejected
        else
          var w' := NextWalk(pg, w, v);
          if w'.current == P_NONE then Accepted(w'.nextLeft)
          else LevelLoop(g, level, w', unseen - {w.current})
  }

  /** No right link leads out of these pages, and none of them is rightmost. */
  ghost predicate NoWayOut(g: Graph, s: set<nat>) {
    P_NONE !in s && forall b :: b in s ==> b in g && g[b].next in s
  }

  /** A lap that goes round has come back to pages that right links do not lead out of. */
  lemma {:induction false} RoundIsClosed(g: Graph, level: Level, w: Walk, unseen: set<nat>) returns (s: set<nat>)
    requires LevelLoop(g, level, w, unseen).Round? && w.current != P_NONE && P_NONE !in g.Keys - unseen
    requires forall b :: b in g.Keys - unseen ==> g[b].next in (g.Keys - unseen) + {w.current}
    ensures NoWayOut(g, s) && LevelLoop(g, level, w, unseen).w.current in s
    decreases unseen
  {
    if w.current in unseen {
      s := RoundIsClosed(g, level, NextWalk(g[w.current], w, VisitPage(g, level, w).value), unseen - {w.current});
    } else {
      s := g.Keys - unseen;
    }
  }

  lemma {:induction false} NoWayOutNotAccepted(g: Graph, level: Level, w: Walk, unseen: set<nat>, s: set<nat>)
    requires NoWayOut(g, s) && w.current in s
    ensures !LevelLoop(g, level, w, unseen).Accepted?
    decreases unseen
  {
    if w.current in unseen && VisitPage(g, level, w).Pass? {
      NoWayOutNotAccepted(g, level, NextWalk(g[w.current], w, VisitPage(g, level, w).value), unseen - {w.current}, s);
    }
  }

  lemma RoundNotAccepted(g: Graph, level: Level)
    requires level.leftmost != P_NONE
    ensures var first := LevelLoop(g, level, StartWalk(level), g.Keys);
            first.Round? ==> !LevelLoop(g, level, first.w, g.Keys).Accepted?
  {
    var first := LevelLoop(g, level, StartWalk(level), g.Keys);
    if first.Round? {
      var s := RoundIsClosed(g, level, StartWalk(level), g.Keys);
      NoWayOutNotAccepted(g, level, first.w, g.Keys, s);
    }
  }

  function Final(o: Outcome): Outcome {
    if o.Round? then EndlessLevel else o
  }

  /** A walk that goes round is followed for a second lap: what the first one remembers of
      the pages before the cycle may let a page pass. After the second nothing changes. */
  function CheckLevel(g: Graph, level: Level): (o: Outcome)
    ensures !o.Round?
    ensures o.Accepted? && level.leftmost != P_NONE ==> o == LevelLoop(g, level, StartWalk(level), g.Keys)
  {
    var first := LevelLoop(g, level, StartWalk(level), g.Keys);
    if first.Round? then
      assert level.leftmost != P_NONE ==> !LevelLoop(g, level, first.w, g.Keys).Accepted? by {
        if level.leftmost != P_NONE {
          RoundNotAccepted(g, level);
        }
      }
      Final(LevelLoop(g, level, first.w, g.Keys))
    else first
  }
}
