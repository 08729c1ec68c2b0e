/** What a level walk that finds nothing wrong has established. */
module BtreeWalk {
  import opened BtreeSpec

  // ----- The search for half-dead pages on the left always ends

  /** path[0] is the start; each later page is the left neighbour that links back. */
  ghost predicate LeftPath(g: Graph, path: seq<nat>) {
    && |path| >= 1
    && (forall i :: 1 <= i < |path| ==> path[i] in g && g[path[i]].next == path[i - 1] && path[i] != path[0])
    && (forall i, j :: 0 <= i < j < |path| ==> path[i] != path[j])
  }

  lemma LeftPathGrows(g: Graph, path: seq<nat>, reached: nat)
    requires LeftPath(g, path) && reached in g
    requires reached != path[0] && reached != path[|path| - 1] && g[reached].next == path[|path| - 1]
    ensures reached !in path
    ensures LeftPath(g, path + [reached])
  {
    forall i | 1 <= i < |path| ensures path[i] != reached {
      assert g[path[i]].next == path[i - 1] != path[|path| - 1];
    }
  }

  lemma {:induction false} LeftmostLoopEnds(g: Graph, path: seq<nat>, reached: nat, unseen: set<nat>)
    requires LeftPath(g, path)
    requires forall b :: b in g && b !in path ==> b in unseen
    ensures LeftmostLoop(g, path[0], path[|path| - 1], reached, unseen) != Revisits
    decreases unseen
  {
    var start, from := path[0], path[|path| - 1];
    if reached != P_NONE && reached in g {
      var pg := g[reached];
      if pg.halfDead && reached != start && reached != from && pg.next == from {
        LeftPathGrows(g, path, reached);
        LeftmostLoopEnds(g, path + [reached], pg.prev, unseen - {reached});
      }
    }
  }

  /** Looking left past half-dead pages stops on every page graph. */
  lemma LeftmostEnds(g: Graph, start: nat)
    requires start in g
    ensures Leftmost(g, start).Pass? || Leftmost(g, start).Corrupt?
  {
    LeftmostLoopEnds(g, [start], g[start].prev, g.Keys);
  }

  /** path[0] is the start; each later page is its half-dead left neighbour, linking back. */
  ghost predicate HalfDeadRun(g: Graph, path: seq<nat>) {
    && |path| >= 1 && (forall i :: 0 <= i < |path| ==> path[i] in g)
    && (forall i :: 1 <= i < |path| ==>
          && path[i] != P_NONE && g[path[i]].halfDead
          && g[path[i - 1]].prev == path[i] && g[path[i]].next == path[i - 1])
    && (forall i, j :: 0 <= i < j < |path| ==> path[i] != path[j])
  }

  /** Nothing but half-dead pages, properly linked, lies to the left of b. */
  ghost predicate LeftEnd(g: Graph, b: nat) {
    exists path :: HalfDeadRun(g, path) && path[0] == b && g[path[|path| - 1]].prev == P_NONE
  }

  lemma {:induction false} RunFromLoop(g: Graph, path: seq<nat>, unseen: set<nat>)
    requires HalfDeadRun(g, path)
    requires var from := path[|path| - 1];
             LeftmostLoop(g, path[0], from, g[from].prev, unseen) == Pass(true)
    ensures LeftEnd(g, path[0])
    decreases unseen
  {
    var from := path[|path| - 1];
    var reached := g[from].prev;
    if reached != P_NONE {
      assert LeftPath(g, path);
      LeftPathGrows(g, path, reached);
      RunFromLoop(g, path + [reached], unseen - {reached});
    }
  }

  lemma {:induction false} LoopFromRun(g: Graph, path: seq<nat>, n: nat, unseen: set<nat>)
    requires HalfDeadRun(g, path) && n < |path| && g[path[|path| - 1]].prev == P_NONE
    requires forall i :: n < i < |path| ==> path[i] in unseen
    ensures LeftmostLoop(g, path[0], path[n], g[path[n]].prev, unseen) == Pass(true)
    decreases |path| - n
  {
    if n + 1 < |path| {
      assert g[path[n + 1 - 1]].prev == path[n + 1];
      LoopFromRun(g, path, n + 1, unseen - {path[n + 1]});
    }
  }

  /** The test succeeds exactly on the pages with nothing but half-dead pages on their left. */
  lemma LeftmostIff(g: Graph, b: nat)
    requires b in g
    ensures Leftmost(g, b) == Pass(true) <==> LeftEnd(g, b)
  {
    if Leftmost(g, b) == Pass(true) {
      RunFromLoop(g, [b], g.Keys);
    } else if LeftEnd(g, b) {
      var path :| HalfDeadRun(g, path) && path[0] == b && g[path[|path| - 1]].prev == P_NONE;
      LoopFromRun(g, path, 0, g.Keys);
    }
  }

  lemma LeftEndNeighbour(g: Graph, b: nat)
    requires LeftEnd(g, b)
    ensures b in g && (b != P_NONE ==> g[b].prev != b)
    ensures g[b].prev == P_NONE || (g[b].prev in g && g[g[b].prev].halfDead)
  {
    var path :| HalfDeadRun(g, path) && path[0] == b && g[path[|path| - 1]].prev == P_NONE;
    if |path| > 1 {
      assert g[path[1 - 1]].prev == path[1];
    }
  }

  // ----- The walk never goes round in circles over live pages

  /** The pages from b along right links. */
  function Chain(g: Graph, b: nat, unseen: set<nat>): (c: seq<nat>)
    ensures forall i :: 0 <= i < |c| ==> c[i] in g && c[i] != P_NONE
    decreases unseen
  {
    if b == P_NONE || b !in g then []
    else if b !in unseen then [b]
    else [b] + Chain(g, g[b].next, unseen - {b})
  }

  /** No page of the chain from b is half-dead. */
  ghost predicate NoHalfDead(g: Graph, b: nat, unseen: set<nat>) {
    forall x :: x in Chain(g, b, unseen) ==> !g[x].halfDead
  }

  lemma ChainSteps(g: Graph, b: nat, unseen: set<nat>)
    requires b != P_NONE && b in g
    ensures b in Chain(g, b, unseen)
    ensures b in unseen ==> forall x :: x in Chain(g, g[b].next, unseen - {b}) ==> x in Chain(g, b, unseen)
  {
    assert Chain(g, b, unseen)[0] == b;
  }

  /** The pages visited before the current one, and their links. */
  ghost predicate Trail(g: Graph, path: seq<nat>, w: Walk) {
    && (forall i :: 0 <= i < |path| ==> path[i] in g && path[i] != P_NONE && !Ignore(g[path[i]]))
    && (forall i, j :: 0 <= i < j < |path| ==> path[i] != path[j])
    && (forall i :: 1 <= i < |path| ==> g[path[i]].prev == path[i - 1])
    && (|path| > 0 ==> LeftEnd(g, path[0]))
    && w.leftcurrent == (if path == [] then P_NONE else path[|path| - 1])
    && w.current != P_NONE
    && (path == [] ==> w.nextLeft == INVALID_BLOCK)
  }

  /** A page that passes its checks cannot have been visited before. */
  lemma VisitedPageIsNew(g: Graph, level: Level, path: seq<nat>, w: Walk)
    requires w.current in g && !Ignore(g[w.current]) && Trail(g, path, w)
    requires VisitPage(g, level, w).Pass?
    ensures w.current !in path
    ensures path != [] ==> g[w.current].prev == path[|path| - 1]
    ensures path == [] ==> LeftEnd(g, w.current)
  {
    if path == [] {
      LeftmostIff(g, w.current);
    }
    forall i | 0 <= i < |path| ensures path[i] != w.current {
      var last := path[|path| - 1];
      if i >= 1 {
        assert g[path[i]].prev == path[i - 1] != last;
      } else {
        LeftEndNeighbour(g, path[0]);
        assert g[path[0]].prev != last;
      }
    }
  }

  /** The back-link check fails on a live page that was visited before. */
  lemma SecondVisitFails(g: Graph, level: Level, path: seq<nat>, w: Walk)
    requires w.current in g && !Ignore(g[w.current]) && Trail(g, path, w) && w.current in path
    ensures VisitPage(g, level, w) == Corrupt
  {
    LeftmostEnds(g, w.current);
    if VisitPage(g, level, w).Pass? {
      VisitedPageIsNew(g, level, path, w);
    }
    var i :| 0 <= i < |path| && path[i] == w.current;
    if i == 0 {
      LeftEndNeighbour(g, path[0]);
    } else {
      assert g[path[i]].prev == path[i - 1];
    }
  }

  lemma {:induction false} WalkNeverRevisits(g: Graph, level: Level, path: seq<nat>, w: Walk, unseen: set<nat>)
    requires Trail(g, path, w) && NoHalfDead(g, w.current, unseen)
    requires forall b :: b in g && b !in path ==> b in unseen
    ensures var o := LevelLoop(g, level, w, unseen);
            o.Round? ==> o.w.current in g && VisitPage(g, level, o.w) == Corrupt
    decreases unseen
  {
    if w.current in g {
      ChainSteps(g, w.current, unseen);
      if w.current !in unseen {
        SecondVisitFails(g, level, path, w);
      } else if VisitPage(g, level, w).Pass? {
        var w' := NextWalk(g[w.current], w, VisitPage(g, level, w).value);
        if w'.current != P_NONE {
          TrailGrows(g, level, path, w);
          WalkNeverRevisits(g, level, path + [w.current], w', unseen - {w.current});
        }
      }
    }
  }

  /** Where no half-dead page is met, the back-link check catches every cycle of right links:
      a walk never leaves the same page twice. */
  lemma LevelWalkStops(g: Graph, level: Level)
    requires level.leftmost != P_NONE && NoHalfDead(g, level.leftmost, g.Keys)
    ensures CheckLevel(g, level) != EndlessLevel
  {
    WalkNeverRevisits(g, level, [], StartWalk(level), g.Keys);
  }

  // ----- An accepted level is in key order

  /** Real items of a page from offset o on, left to right. */
  function KeysFrom(pg: BtPage, o: nat): seq<int>
    requires 1 <= o
    decreases MaxOffset(pg) + 1 - o
  {
    if o > MaxOffset(pg) then [] else [Line(pg, o).key] + KeysFrom(pg, o + 1)
  }

  function PageKeys(pg: BtPage): seq<int> {
    KeysFrom(pg, FirstReal(pg))
  }

  /** Real items of the pages of a chain. */
  function ChainKeys(g: Graph, chain: seq<nat>): seq<int>
    requires forall b :: b in chain ==> b in g
  {
    if chain == [] then [] else PageKeys(g[chain[0]]) + ChainKeys(g, chain[1..])
  }

  predicate Increasing(s: seq<int>) {
    forall i, j :: 0 <= i < j < |s| ==> s[i] < s[j]
  }

  lemma IncreasingJoin(a: seq<int>, b: seq<int>)
    requires Increasing(a) && Increasing(b)
    requires a != [] && b != [] ==> a[|a| - 1] < b[0]
    ensures Increasing(a + b)
  {
    var s := a + b;
    forall i, j | 0 <= i < j < |s| ensures s[i] < s[j] {
      if i < |a| <= j {
        assert a[i] <= a[|a| - 1] && b[0] <= b[j - |a|];
      }
    }
  }

  /** What the item loop demands of the page's own items and of its right neighbour. */
  predicate PageInOrder(g: Graph, t: BtPage, from: nat)
    requires 1 <= from
  {
    && (forall o :: from <= o <= MaxOffset(t) && FirstReal(t) <= o ==> ItemOrderOk(t, o))
    && (from <= MaxOffset(t) && FirstReal(t) <= MaxOffset(t) ==>
          RightOrder(g, t, Line(t, MaxOffset(t)).key) == Pass(()))
  }

  lemma {:induction false} ItemsLoopOrders(g: Graph, t: BtPage, lowkey: MaybeTuple, st: ChildState, off: nat)
    requires FirstDataKey(t) <= off && ItemsLoop(g, t, lowkey, st, off).Pass?
    ensures PageInOrder(g, t, off)
    decreases MaxOffset(t) + 1 - off
  {
    if off <= MaxOffset(t) {
      var r := if OffsetIsNegativeInfinity(t, off) then ChildHighKey(g, t, lowkey, st, off)
               else if t.leaf then Pass(st) else ChildCheck(g, t, lowkey, st, off);
      ItemsLoopOrders(g, t, lowkey, r.value, off + 1);
    }
  }

  lemma {:induction false} KeysFromSorted(t: BtPage, o: nat)
    requires FirstReal(t) <= o
    requires forall i :: o <= i <= MaxOffset(t) ==> ItemOrderOk(t, i)
    ensures Increasing(KeysFrom(t, o))
    ensures o <= MaxOffset(t) ==>
              && |KeysFrom(t, o)| > 0 && KeysFrom(t, o)[0] == Line(t, o).key
              && KeysFrom(t, o)[|KeysFrom(t, o)| - 1] == Line(t, MaxOffset(t)).key
    decreases MaxOffset(t) + 1 - o
  {
    if o <= MaxOffset(t) {
      KeysFromSorted(t, o + 1);
      assert ItemOrderOk(t, o);
      IncreasingJoin([Line(t, o).key], KeysFrom(t, o + 1));
    }
  }

  /** Every page of the chain from b holds at least one real item. */
  ghost predicate Populated(g: Graph, b: nat, unseen: set<nat>) {
    forall x :: x in Chain(g, b, unseen) ==> FirstReal(g[x]) <= MaxOffset(g[x])
  }

  lemma RightNeighbour(g: Graph, t: BtPage, key: int)
    requires !Rightmost(t) && t.next in g && !Ignore(g[t.next]) && FirstReal(g[t.next]) <= MaxOffset(g[t.next])
    requires RightOrder(g, t, key) == Pass(())
    ensures key < Line(g[t.next], FirstReal(g[t.next])).key
  {
    assert RightPage(g, t.next, g.Keys) == Pass(t.next);
  }

  /** A page that passes its checks is sorted, and ends below its live right neighbour. */
  lemma VisitedPageSorted(g: Graph, level: Level, w: Walk)
    requires w.current in g && !Ignore(g[w.current]) && VisitPage(g, level, w).Pass?
    requires FirstReal(g[w.current]) <= MaxOffset(g[w.current])
    ensures var t := g[w.current];
            var keys := PageKeys(t);
            && Increasing(keys) && |keys| > 0 && keys[0] == Line(t, FirstReal(t)).key
            && (!Rightmost(t) && t.next in g && !Ignore(g[t.next]) && FirstReal(g[t.next]) <= MaxOffset(g[t.next]) ==>
                  keys[|keys| - 1] < Line(g[t.next], FirstReal(g[t.next])).key)
  {
    var t := g[w.current];
    ItemsLoopOrders(g, t, w.lowkey, w.st, FirstDataKey(t));
    KeysFromSorted(t, FirstReal(t));
    if !Rightmost(t) && t.next in g && !Ignore(g[t.next]) && FirstReal(g[t.next]) <= MaxOffset(g[t.next]) {
      RightNeighbour(g, t, Line(t, MaxOffset(t)).key);
    }
  }

  lemma {:induction false} AcceptedLoopSorted(g: Graph, level: Level, w: Walk, unseen: set<nat>)
    requires NoHalfDead(g, w.current, unseen) && Populated(g, w.current, unseen) && w.current != P_NONE
    requires LevelLoop(g, level, w, unseen).Accepted?
    ensures w.current in g && !Ignore(g[w.current])
    ensures Increasing(ChainKeys(g, Chain(g, w.current, unseen)))
    ensures FirstReal(g[w.current]) <= MaxOffset(g[w.current])
    ensures var keys := ChainKeys(g, Chain(g, w.current, unseen));
            |keys| > 0 && keys[0] == Line(g[w.current], FirstReal(g[w.current])).key
    decreases unseen
  {
    var b, t := w.current, g[w.current];
    ChainSteps(g, b, unseen);
    var v := VisitPage(g, level, w).value;
    VisitedPageSorted(g, level, w);
    var chain := Chain(g, b, unseen);
    assert chain[0] == b;
    if t.next == P_NONE {
      assert chain[1..] == [];
      assert ChainKeys(g, chain) == PageKeys(t);
    } else {
      assert b in unseen;
      AcceptedLoopSorted(g, level, NextWalk(t, w, v), unseen - {b});
      assert chain[1..] == Chain(g, t.next, unseen - {b});
      IncreasingJoin(PageKeys(t), ChainKeys(g, chain[1..]));
    }
  }

  /** An accepted level without half-dead pages, each page with a real item: read left to right, all
      real items of the level are strictly increasing. */
  lemma AcceptedLevelIsSorted(g: Graph, level: Level)
    requires level.leftmost != P_NONE && NoHalfDead(g, level.leftmost, g.Keys)
    requires Populated(g, level.leftmost, g.Keys) && CheckLevel(g, level).Accepted?
    ensures Increasing(ChainKeys(g, Chain(g, level.leftmost, g.Keys)))
  {
    AcceptedLoopSorted(g, level, StartWalk(level), g.Keys);
  }

  /** Every page of an accepted level has passed its own checks. */
  lemma {:induction false} AcceptedPagePasses(g: Graph, level: Level, w: Walk, unseen: set<nat>, n: nat) returns (v: Walk)
    requires LevelLoop(g, level, w, unseen).Accepted? && n < |Chain(g, w.current, unseen)|
    ensures v.current == Chain(g, w.current, unseen)[n] && v.current in g && VisitPage(g, level, v).Pass?
    decreases unseen
  {
    if n == 0 {
      v := w;
    } else {
      var t := g[w.current];
      v := AcceptedPagePasses(g, level, NextWalk(t, w, VisitPage(g, level, w).value), unseen - {w.current}, n - 1);
    }
  }

  /** So every real item of an accepted level is in order on its page. */
  lemma AcceptedItemOrder(g: Graph, level: Level, n: nat, o: nat)
    requires CheckLevel(g, level).Accepted? && n < |Chain(g, level.leftmost, g.Keys)|
    requires var b := Chain(g, level.leftmost, g.Keys)[n];
             !Ignore(g[b]) && FirstReal(g[b]) <= o <= MaxOffset(g[b])
    ensures ItemOrderOk(g[Chain(g, level.leftmost, g.Keys)[n]], o)
  {
    var v := AcceptedPagePasses(g, level, StartWalk(level), g.Keys, n);
    var t := g[v.current];
    ItemsLoopOrders(g, t, v.lowkey, v.st, FirstDataKey(t));
  }

  // ----- An accepted level is a doubly linked list

  predicate DoublyLinked(g: Graph, level: nat, c: seq<nat>) {
    && (forall i :: 0 <= i < |c| ==> c[i] in g && g[c[i]].level == level)
    && (forall i, j :: 0 <= i < j < |c| ==> c[i] != c[j])
    && (forall i :: 1 <= i < |c| ==> g[c[i]].prev == c[i - 1] && g[c[i - 1]].next == c[i])
  }

  lemma DoublyLinkedGrows(g: Graph, level: nat, path: seq<nat>, b: nat)
    requires DoublyLinked(g, level, path) && b in g && b !in path && g[b].level == level
    requires path != [] ==> g[path[|path| - 1]].next == b && g[b].prev == path[|path| - 1]
    ensures DoublyLinked(g, level, path + [b])
  {
  }

  lemma TrailGrows(g: Graph, level: Level, path: seq<nat>, w: Walk)
    requires Trail(g, path, w) && w.current in g && !Ignore(g[w.current]) && !Rightmost(g[w.current])
    requires VisitPage(g, level, w).Pass?
    ensures Trail(g, path + [w.current], NextWalk(g[w.current], w, VisitPage(g, level, w).value))
  {
    VisitedPageIsNew(g, level, path, w);
  }

  lemma ChainStep(g: Graph, path: seq<nat>, b: nat, unseen: set<nat>)
    requires b in g && b in unseen && b != P_NONE
    ensures path + Chain(g, b, unseen) == (path + [b]) + Chain(g, g[b].next, unseen - {b})
  {
  }

  lemma LastOfChain(g: Graph, b: nat, unseen: set<nat>)
    requires b != P_NONE && b in g && Rightmost(g[b])
    ensures Chain(g, b, unseen) == [b]
  {
    assert Chain(g, P_NONE, unseen - {b}) == [];
  }

  /** One accepted page joins the list behind it. */
  lemma ListGrows(g: Graph, level: Level, path: seq<nat>, w: Walk)
    requires Trail(g, path, w) && w.current in g && !Ignore(g[w.current]) && VisitPage(g, level, w).Pass?
    requires DoublyLinked(g, level.level, path) && (path != [] ==> g[path[|path| - 1]].next == w.current)
    ensures w.current !in path && DoublyLinked(g, level.level, path + [w.current])
    ensures !Rightmost(g[w.current]) ==>
              Trail(g, path + [w.current], NextWalk(g[w.current], w, VisitPage(g, level, w).value))
  {
    VisitedPageIsNew(g, level, path, w);
    DoublyLinkedGrows(g, level.level, path, w.current);
    if !Rightmost(g[w.current]) {
      TrailGrows(g, level, path, w);
    }
  }

  /** The list is complete: its last page is a rightmost one. */
  predicate ListEnds(g: Graph, level: nat, c: seq<nat>) {
    |c| > 0 && DoublyLinked(g, level, c) && g[c[|c| - 1]].next == P_NONE
  }

  lemma LastPageEnds(g: Graph, level: nat, path: seq<nat>, b: nat, unseen: set<nat>)
    requires DoublyLinked(g, level, path + [b]) && b != P_NONE && b in g && Rightmost(g[b])
    ensures ListEnds(g, level, path + Chain(g, b, unseen))
  {
    LastOfChain(g, b, unseen);
  }

  lemma {:induction false} AcceptedLoopLinks(g: Graph, level: Level, path: seq<nat>, w: Walk, unseen: set<nat>)
    requires Trail(g, path, w) && NoHalfDead(g, w.current, unseen)
    requires DoublyLinked(g, level.level, path) && (path != [] ==> g[path[|path| - 1]].next == w.current)
    requires forall b :: b in g && b !in path ==> b in unseen
    requires LevelLoop(g, level, w, unseen).Accepted?
    ensures ListEnds(g, level.level, path + Chain(g, w.current, unseen))
    decreases unseen
  {
    var b, pg := w.current, g[w.current];
    ChainSteps(g, b, unseen);
    ListGrows(g, level, path, w);
    if Rightmost(pg) {
      LastPageEnds(g, level.level, path, b, unseen);
    } else {
      ChainStep(g, path, b, unseen);
      AcceptedLoopLinks(g, level, path + [b], NextWalk(pg, w, VisitPage(g, level, w).value), unseen - {b});
    }
  }

  lemma AcceptedFirst(g: Graph, level: Level, w: Walk, unseen: set<nat>)
    requires w.current != P_NONE && LevelLoop(g, level, w, unseen).Accepted?
    ensures |Chain(g, w.current, unseen)| > 0 && Chain(g, w.current, unseen)[0] == w.current
  {
  }

  lemma AcceptedIsLinked(g: Graph, level: Level)
    requires level.leftmost != P_NONE && NoHalfDead(g, level.leftmost, g.Keys)
    requires LevelLoop(g, level, StartWalk(level), g.Keys).Accepted?
    ensures ListEnds(g, level.level, Chain(g, level.leftmost, g.Keys))
  {
    AcceptedLoopLinks(g, level, [], StartWalk(level), g.Keys);
    assert [] + Chain(g, level.leftmost, g.Keys) == Chain(g, level.leftmost, g.Keys);
  }

  lemma AcceptedLeftEnd(g: Graph, level: Level)
    requires level.leftmost != P_NONE && NoHalfDead(g, level.leftmost, g.Keys)
    requires LevelLoop(g, level, StartWalk(level), g.Keys).Accepted?
    ensures LeftEnd(g, level.leftmost)
  {
    LeftmostIff(g, level.leftmost);
    ChainSteps(g, level.leftmost, g.Keys);
  }

  /** The pages of an accepted level without half-dead pages are a doubly linked list, each page once, from
      the page given as leftmost to a rightmost page, all on the level claimed. */
  lemma AcceptedLevelIsList(g: Graph, level: Level)
    requires level.leftmost != P_NONE && NoHalfDead(g, level.leftmost, g.Keys) && CheckLevel(g, level).Accepted?
    ensures var c := Chain(g, level.leftmost, g.Keys);
            && |c| > 0 && c[0] == level.leftmost && DoublyLinked(g, level.level, c)
            && LeftEnd(g, c[0]) && g[c[|c| - 1]].next == P_NONE
  {
    AcceptedIsLinked(g, level);
    AcceptedFirst(g, level, StartWalk(level), g.Keys);
    AcceptedLeftEnd(g, level);
  }
}
