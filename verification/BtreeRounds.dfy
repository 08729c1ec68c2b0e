/** When the walk along a level never ends: exactly when it has runs of every length, and
    what that takes of the links, flags and pages. */
module BtreeRounds {
  import opened Optional
  import opened BtreeSpec
  import opened BtreeWalk

  /** The level loop leaves this page for its right neighbour. */
  predicate Turn(g: Graph, level: Level, w: Walk) {
    && w.current in g && VisitPage(g, level, w).Pass?
    && w.current != w.leftcurrent && w.current != g[w.current].prev
    && !Rightmost(g[w.current]) && MaxOffset(g[w.current]) >= 1
  }

  function After(g: Graph, level: Level, w: Walk): Walk
    requires Turn(g, level, w)
  {
    NextWalk(g[w.current], w, VisitPage(g, level, w).value)
  }

  predicate TurnAt(g: Graph, level: Level, ws: seq<Walk>, i: nat)
    requires i + 1 < |ws|
  {
    Turn(g, level, ws[i]) && ws[i + 1] == After(g, level, ws[i])
  }

  /** Successive states of the level loop. */
  predicate Run(g: Graph, level: Level, ws: seq<Walk>) {
    && |ws| >= 1 && ws[0].current != P_NONE
    && (forall i: nat :: i + 1 < |ws| ==> TurnAt(g, level, ws, i))
  }

  predicate DistinctPages(ws: seq<Walk>, n: nat)
    requires n <= |ws|
  {
    forall i, j :: 0 <= i < j < n ==> ws[i].current != ws[j].current
  }

  /** The walk passes over distinct pages and arrives at one of them, the k-th, again. */
  predicate LevelLap(g: Graph, level: Level, ws: seq<Walk>, k: nat) {
    && k + 1 < |ws| && Run(g, level, ws) && DistinctPages(ws, |ws| - 1)
    && ws[|ws| - 1].current == ws[k].current
  }

  lemma RunGrows(g: Graph, level: Level, ws: seq<Walk>)
    requires Run(g, level, ws) && Turn(g, level, ws[|ws| - 1])
    ensures Run(g, level, ws + [After(g, level, ws[|ws| - 1])])
  {
    var more := ws + [After(g, level, ws[|ws| - 1])];
    forall i: nat | i + 1 < |more| ensures TurnAt(g, level, more, i) {
      assert i + 1 < |ws| ==> TurnAt(g, level, ws, i);
    }
  }

  /** Position n of a run. */
  lemma RunAt(g: Graph, level: Level, ws: seq<Walk>, n: nat)
    requires Run(g, level, ws) && n < |ws|
    ensures n > 0 ==> ws[n].leftcurrent == ws[n - 1].current && ws[n - 1].current in g
    ensures n > 0 ==> ws[n].current == g[ws[n - 1].current].next
    ensures ws[n].current != P_NONE
    ensures n + 1 < |ws| ==> Turn(g, level, ws[n])
  {
    if n + 1 < |ws| {
      assert TurnAt(g, level, ws, n);
    }
    if n > 0 {
      assert TurnAt(g, level, ws, n - 1);
    }
  }

  // ----- One lap of the level loop

  predicate LeftPages(g: Graph, ws: seq<Walk>, unseen: set<nat>)
    requires |ws| >= 1
  {
    forall b :: b in g ==> (b in unseen <==> forall i :: 0 <= i < |ws| - 1 ==> ws[i].current != b)
  }

  lemma PagesLeft(g: Graph, ws: seq<Walk>, w': Walk, unseen: set<nat>)
    requires |ws| >= 1 && LeftPages(g, ws, unseen) && DistinctPages(ws, |ws| - 1) && ws[|ws| - 1].current in unseen
    requires ws[|ws| - 1].current in g
    ensures DistinctPages(ws + [w'], |ws|) && LeftPages(g, ws + [w'], unseen - {ws[|ws| - 1].current})
  {
    var more, n := ws + [w'], |ws| - 1;
    forall b | b in g
      ensures b in unseen - {ws[n].current} <==> forall i :: 0 <= i < |more| - 1 ==> more[i].current != b
    {
      if forall i :: 0 <= i < |more| - 1 ==> more[i].current != b {
        assert more[n].current != b;
        forall i | 0 <= i < n ensures ws[i].current != b {
          assert more[i].current != b;
        }
      }
    }
  }

  /** One turn of the level loop. */
  lemma LoopTurn(g: Graph, level: Level, w: Walk, unseen: set<nat>)
    ensures Turn(g, level, w) && w.current in unseen ==>
              LevelLoop(g, level, w, unseen) == LevelLoop(g, level, After(g, level, w), unseen - {w.current})
    ensures w.current in g && w.current !in unseen ==> LevelLoop(g, level, w, unseen) == Round(w)
    ensures !Turn(g, level, w) && w.current in unseen ==> !LevelLoop(g, level, w, unseen).Round?
    ensures w.current !in g ==> !LevelLoop(g, level, w, unseen).Round?
  {
  }

  lemma {:induction false} FindLevelLap(g: Graph, level: Level, ws: seq<Walk>, unseen: set<nat>)
      returns (vs: seq<Walk>, k: nat)
    requires Run(g, level, ws) && DistinctPages(ws, |ws| - 1) && LeftPages(g, ws, unseen)
    requires LevelLoop(g, level, ws[|ws| - 1], unseen).Round?
    ensures LevelLap(g, level, vs, k) && vs[0] == ws[0]
    ensures LevelLoop(g, level, ws[|ws| - 1], unseen).w == vs[|vs| - 1]
    decreases unseen
  {
    var w := ws[|ws| - 1];
    LoopTurn(g, level, w, unseen);
    if w.current in unseen {
      RunGrows(g, level, ws);
      PagesLeft(g, ws, After(g, level, w), unseen);
      vs, k := FindLevelLap(g, level, ws + [After(g, level, w)], unseen - {w.current});
    } else {
      k :| 0 <= k < |ws| - 1 && ws[k].current == w.current;
      vs := ws;
    }
  }

  /** A lap that goes round, from its first state. */
  lemma RoundHasLap(g: Graph, level: Level, w: Walk) returns (ws: seq<Walk>, k: nat)
    requires w.current != P_NONE && LevelLoop(g, level, w, g.Keys).Round?
    ensures LevelLap(g, level, ws, k) && ws[0] == w && ws[|ws| - 1] == LevelLoop(g, level, w, g.Keys).w
  {
    ws, k := FindLevelLap(g, level, [w], g.Keys);
  }

  lemma {:induction false} LevelLapIsWalked(g: Graph, level: Level, ws: seq<Walk>, k: nat, n: nat, unseen: set<nat>)
    requires LevelLap(g, level, ws, k) && n < |ws|
    requires forall i :: 0 <= i < |ws| - 1 ==> (ws[i].current in unseen <==> n <= i)
    ensures LevelLoop(g, level, ws[n], unseen) == Round(ws[|ws| - 1])
    decreases |ws| - n
  {
    RunAt(g, level, ws, k);
    LoopTurn(g, level, ws[n], unseen);
    if n + 1 < |ws| {
      assert TurnAt(g, level, ws, n);
      LevelLapIsWalked(g, level, ws, k, n + 1, unseen - {ws[n].current});
    }
  }

  lemma LapGoesRound(g: Graph, level: Level, ws: seq<Walk>, k: nat)
    requires LevelLap(g, level, ws, k)
    ensures LevelLoop(g, level, ws[0], g.Keys) == Round(ws[|ws| - 1])
  {
    forall i | 0 <= i < |ws| - 1 ensures ws[i].current in g {
      assert TurnAt(g, level, ws, i);
    }
    LevelLapIsWalked(g, level, ws, k, 0, g.Keys);
  }

  // ----- What a turn leaves behind

  /** Where the child walk stands after this downlink. */
  function EndOf(g: Graph, downlink: nat): ChildState {
    if downlink == P_NONE || downlink !in g then CHILD_START
    else ChildState(g[downlink].next, g[downlink].incompleteSplit)
  }

  lemma {:induction false} ChildLoopEnd(g: Graph, t: BtPage, lowkey: MaybeTuple, st: ChildState, off: nat, downlink: nat,
                                        blkno: nat, rightsplit: bool, first: bool, unseen: set<nat>)
    requires ChildLoop(g, t, lowkey, st, off, downlink, blkno, rightsplit, first, unseen).Pass?
    ensures ChildLoop(g, t, lowkey, st, off, downlink, blkno, rightsplit, first, unseen).value == EndOf(g, downlink)
    ensures downlink == P_NONE || downlink in g
    decreases unseen
  {
    if blkno != P_NONE && blkno != downlink {
      ChildLoopEnd(g, t, lowkey, st, off, downlink, g[blkno].next, g[blkno].incompleteSplit, false, unseen - {blkno});
    }
  }

  /** The child state after a downlink does not depend on the one before it. */
  lemma ChildEnd(g: Graph, t: BtPage, lowkey: MaybeTuple, st: ChildState, off: nat)
    requires 1 <= off <= MaxOffset(t) && ChildHighKey(g, t, lowkey, st, off).Pass?
    ensures ChildHighKey(g, t, lowkey, st, off).value == EndOf(g, Line(t, off).downlink)
    ensures Line(t, off).downlink != INVALID_BLOCK
  {
    var d := Line(t, off).downlink;
    if st.rightlink == INVALID_BLOCK {
      ChildLoopEnd(g, t, lowkey, st, off, d, d, false, true, g.Keys);
    } else {
      ChildLoopEnd(g, t, lowkey, st, off, d, st.rightlink, st.incompleteSplit, true, g.Keys);
    }
  }

  lemma {:induction false} ItemsEndState(g: Graph, t: BtPage, lowkey: MaybeTuple, st: ChildState, off: nat)
    requires !t.leaf && !Rightmost(t) && 1 <= off && ItemsLoop(g, t, lowkey, st, off).Pass?
    ensures ItemsLoop(g, t, lowkey, st, off).value ==
            if off > MaxOffset(t) then st else EndOf(g, Line(t, MaxOffset(t)).downlink)
    decreases MaxOffset(t) + 1 - off
  {
    if off <= MaxOffset(t) {
      ChildEnd(g, t, lowkey, st, off);
      var st' := ChildHighKey(g, t, lowkey, st, off).value;
      ItemsEndState(g, t, lowkey, st', off + 1);
    }
  }

  lemma {:induction false} LeafItemsKeepState(g: Graph, t: BtPage, lowkey: MaybeTuple, st: ChildState, off: nat)
    requires t.leaf && 1 <= off && ItemsLoop(g, t, lowkey, st, off).Pass?
    ensures ItemsLoop(g, t, lowkey, st, off).value == st
    decreases MaxOffset(t) + 1 - off
  {
    if off <= MaxOffset(t) {
      LeafItemsKeepState(g, t, lowkey, st, off + 1);
    }
  }

  /** What is remembered after a turn: from a half-dead page the same as before; from a live
      one a leftmost block below and, above the leaf level, a child state that is the page's
      own. */
  lemma TurnLeaves(g: Graph, level: Level, w: Walk)
    requires Turn(g, level, w) && w.current != P_NONE
    ensures var t, w' := g[w.current], After(g, level, w);
            && (w.nextLeft != INVALID_BLOCK ==> w'.nextLeft == w.nextLeft)
            && (t.halfDead ==> w'.st == w.st && w'.nextLeft == w.nextLeft)
            && (!t.halfDead ==> w'.nextLeft != INVALID_BLOCK)
            && (!t.halfDead && level.level > 0 ==> w'.st == EndOf(g, Line(t, MaxOffset(t)).downlink))
            && (level.level == 0 ==> w'.st == w.st)
  {
    var t := g[w.current];
    if !t.halfDead {
      if t.leaf {
        LeafItemsKeepState(g, t, w.lowkey, w.st, FirstDataKey(t));
      } else {
        ItemsEndState(g, t, w.lowkey, w.st, FirstDataKey(t));
        ChildEnd(g, t, w.lowkey, w.st, FirstDataKey(t));
      }
    }
  }

  // ----- Two laps of the same cycle

  /** Only half-dead pages from position k up to n. */
  predicate NoneLive(g: Graph, ws: seq<Walk>, k: nat, n: nat)
    requires n <= |ws|
  {
    forall i :: k <= i < n ==> ws[i].current in g && g[ws[i].current].halfDead
  }

  /** Position n of a second run over the pages from position k of the first. */
  predicate InStep(g: Graph, level: Level, ws: seq<Walk>, k: nat, us: seq<Walk>, n: nat)
    requires k + n < |ws| && n < |us|
  {
    var w, u := ws[k + n], us[n];
    && u.current == w.current && (n > 0 ==> u.leftcurrent == w.leftcurrent && u.lowkey == w.lowkey)
    && (us[0].nextLeft != INVALID_BLOCK ==> u.nextLeft == us[0].nextLeft)
    && (if level.level == 0 || NoneLive(g, ws, k, k + n) then u.st == us[0].st && w.st == ws[k].st
        else u.st == w.st)
    && (if NoneLive(g, ws, k, k + n) then u.nextLeft == us[0].nextLeft && w.nextLeft == ws[k].nextLeft
        else w.nextLeft != INVALID_BLOCK)
  }

  lemma InStepGoesOn(g: Graph, level: Level, ws: seq<Walk>, k: nat, us: seq<Walk>, n: nat)
    requires k + n + 1 < |ws| && n + 1 < |us| && InStep(g, level, ws, k, us, n)
    requires TurnAt(g, level, ws, k + n) && TurnAt(g, level, us, n) && ws[k + n].current != P_NONE
    ensures InStep(g, level, ws, k, us, n + 1)
  {
    var w, u := ws[k + n], us[n];
    TurnLeaves(g, level, w);
    TurnLeaves(g, level, u);
    assert NoneLive(g, ws, k, k + n + 1) <==> NoneLive(g, ws, k, k + n) && g[w.current].halfDead;
  }

  lemma {:induction false} StaysInStep(g: Graph, level: Level, ws: seq<Walk>, k: nat, us: seq<Walk>, n: nat)
    requires Run(g, level, ws) && Run(g, level, us) && k + n < |ws| && n < |us|
    requires us[0].current == ws[k].current
    ensures InStep(g, level, ws, k, us, n)
    decreases n
  {
    if n > 0 {
      StaysInStep(g, level, ws, k, us, n - 1);
      RunAt(g, level, ws, k + n - 1);
      assert TurnAt(g, level, ws, k + n - 1) && TurnAt(g, level, us, n - 1);
      InStepGoesOn(g, level, ws, k, us, n - 1);
    }
  }

  /** A second lap takes the same pages as the cycle of the first. */
  lemma SecondLapLength(g: Graph, level: Level, ws: seq<Walk>, k: nat, us: seq<Walk>, j: nat)
    requires LevelLap(g, level, ws, k) && LevelLap(g, level, us, j) && us[0] == ws[|ws| - 1]
    ensures j == 0 && |us| == |ws| - k
  {
    var n, m := |ws| - 1 - k, |us| - 1;
    if m < n {
      StaysInStep(g, level, ws, k, us, m);
      StaysInStep(g, level, ws, k, us, j);
    } else {
      StaysInStep(g, level, ws, k, us, n);
    }
  }

  /** The second lap ends in the state in which it began. */
  lemma SecondLapCloses(g: Graph, level: Level, ws: seq<Walk>, k: nat, us: seq<Walk>)
    requires LevelLap(g, level, ws, k) && Run(g, level, us) && us[0] == ws[|ws| - 1] && |us| == |ws| - k
    ensures us[|us| - 1] == us[0]
  {
    var n := |us| - 1;
    StaysInStep(g, level, ws, k, us, n);
    assert k + n == |ws| - 1;
  }

  /** EndlessLevel means two laps. */
  lemma TwoLaps(g: Graph, level: Level) returns (ws: seq<Walk>, k: nat, us: seq<Walk>)
    requires level.leftmost != P_NONE && CheckLevel(g, level) == EndlessLevel
    ensures LevelLap(g, level, ws, k) && ws[0] == StartWalk(level)
    ensures LevelLap(g, level, us, 0) && us[0] == ws[|ws| - 1] && |us| == |ws| - k
  {
    ws, k := RoundHasLap(g, level, StartWalk(level));
    RunAt(g, level, ws, |ws| - 1);
    var j;
    us, j := RoundHasLap(g, level, ws[|ws| - 1]);
    SecondLapLength(g, level, ws, k, us, j);
  }

  lemma TwoLapsAreEndless(g: Graph, level: Level, ws: seq<Walk>, k: nat, us: seq<Walk>, j: nat)
    requires LevelLap(g, level, ws, k) && ws[0] == StartWalk(level)
    requires LevelLap(g, level, us, j) && us[0] == ws[|ws| - 1]
    ensures CheckLevel(g, level) == EndlessLevel
  {
    LapGoesRound(g, level, ws, k);
    LapGoesRound(g, level, us, j);
  }

  // ----- Endless means runs of every length

  /** The level loop can make n turns. */
  ghost predicate TurnsPossible(g: Graph, level: Level, n: nat) {
    exists ws :: Run(g, level, ws) && ws[0] == StartWalk(level) && |ws| == n + 1
  }

  /** Any number of turns round a cycle that closes in the state it began with. */
  lemma {:induction false} RunGoesOn(g: Graph, level: Level, ws: seq<Walk>, us: seq<Walk>, n: nat)
      returns (vs: seq<Walk>, j: nat)
    requires Run(g, level, ws) && Run(g, level, us) && us[0] == ws[|ws| - 1] == us[|us| - 1] && |us| >= 2
    ensures Run(g, level, vs) && vs[0] == ws[0] && |vs| == |ws| + n && j + 1 < |us| && vs[|vs| - 1] == us[j]
    decreases n
  {
    if n == 0 {
      vs, j := ws, 0;
    } else {
      var xs, i := RunGoesOn(g, level, ws, us, n - 1);
      assert TurnAt(g, level, us, i);
      RunGrows(g, level, xs);
      vs := xs + [After(g, level, us[i])];
      j := if i + 2 < |us| then i + 1 else 0;
    }
  }

  lemma FewerTurns(g: Graph, level: Level, m: nat, n: nat)
    requires TurnsPossible(g, level, m) && n <= m
    ensures TurnsPossible(g, level, n)
  {
    var ws :| Run(g, level, ws) && ws[0] == StartWalk(level) && |ws| == m + 1;
    var vs := ws[..n + 1];
    forall i: nat | i + 1 < |vs| ensures TurnAt(g, level, vs, i) {
      assert TurnAt(g, level, ws, i);
    }
  }

  /** A run longer than the pages that are left comes back to one of those before. */
  lemma {:induction false} LongRunGoesRound(g: Graph, level: Level, ws: seq<Walk>, i: nat, unseen: set<nat>)
      returns (j: nat)
    requires Run(g, level, ws) && i + |unseen| + 1 < |ws|
    ensures i <= j <= i + |unseen| && LevelLoop(g, level, ws[i], unseen) == Round(ws[j])
    decreases unseen
  {
    assert TurnAt(g, level, ws, i);
    LoopTurn(g, level, ws[i], unseen);
    if ws[i].current in unseen {
      j := LongRunGoesRound(g, level, ws, i + 1, unseen - {ws[i].current});
    } else {
      j := i;
    }
  }

  /** On every level: the walk is found to be endless if and only if the loop can make any
      number of turns. */
  lemma EndlessIff(g: Graph, level: Level)
    requires level.leftmost != P_NONE
    ensures CheckLevel(g, level) == EndlessLevel <==> forall n: nat :: TurnsPossible(g, level, n)
  {
    if CheckLevel(g, level) == EndlessLevel {
      var ws, k, us := TwoLaps(g, level);
      SecondLapCloses(g, level, ws, k, us);
      forall n: nat ensures TurnsPossible(g, level, n) {
        var vs, j := RunGoesOn(g, level, ws, us, n);
        FewerTurns(g, level, |vs| - 1, n);
      }
    } else if forall n: nat :: TurnsPossible(g, level, n) {
      var size := |g.Keys|;
      assert TurnsPossible(g, level, 2 * size + 2);
      var ws :| Run(g, level, ws) && ws[0] == StartWalk(level) && |ws| == 2 * size + 3;
      var i := LongRunGoesRound(g, level, ws, 0, g.Keys);
      var j := LongRunGoesRound(g, level, ws, i, g.Keys);
    }
  }

  // ----- In terms of links, flags and pages

  /** The page where the cycle is entered can be entered again from the page that closes it. */
  predicate EntryAgain(g: Graph, ws: seq<Walk>, k: nat)
    requires k + 1 < |ws|
  {
    ws[k].current in g &&
    var entry, closing := g[ws[k].current], ws[|ws| - 1].leftcurrent;
    && k + 2 < |ws|
    && (entry.halfDead || (k == 0 && closing in g && g[closing].halfDead && entry.prev == closing))
  }

  /** The first live page of the cycle passes its own checks with the child state of the
      cycle's last live page. */
  predicate FirstLiveAgain(g: Graph, ws: seq<Walk>, k: nat)
    requires |ws| >= 1
  {
    forall j :: k <= j < |ws| - 1 && ws[j].current in g && !g[ws[j].current].halfDead && NoneLive(g, ws, k, j) ==>
      TargetPage(g, g[ws[j].current], (if j == k then ws[|ws| - 1] else ws[j]).lowkey, ws[|ws| - 1].st).Pass?
  }

  /** The cycle can be gone round a second time. */
  predicate RoundAgain(g: Graph, level: Level, ws: seq<Walk>, k: nat)
    requires k + 1 < |ws|
  {
    EntryAgain(g, ws, k) && (level.level > 0 ==> FirstLiveAgain(g, ws, k))
  }

  /** A live page other than the first is not entered from two different pages. */
  lemma LiveInnerEntry(g: Graph, level: Level, ws: seq<Walk>, k: nat)
    requires LevelLap(g, level, ws, k) && Turn(g, level, ws[|ws| - 1]) && k > 0
    ensures g[ws[k].current].halfDead
  {
    var n := |ws| - 1;
    RunAt(g, level, ws, k);
    RunAt(g, level, ws, k - 1);
    RunAt(g, level, ws, n);
    RunAt(g, level, ws, n - 1);
  }

  /** A live first page has only a half-dead page on its left. */
  lemma LiveFirst(g: Graph, level: Level, w: Walk, w': Walk)
    requires w.nextLeft == INVALID_BLOCK && Turn(g, level, w) && !g[w.current].halfDead
    requires w'.current == w.current && Turn(g, level, w') && w'.leftcurrent != P_NONE
    ensures w'.leftcurrent in g && g[w'.leftcurrent].halfDead && g[w.current].prev == w'.leftcurrent
  {
    LeftmostIff(g, w.current);
    LeftEndNeighbour(g, w.current);
  }

  /** A live entry page is the leftmost one, entered the second time from the half-dead page
      on its left. */
  lemma LiveEntry(g: Graph, level: Level, ws: seq<Walk>, k: nat)
    requires LevelLap(g, level, ws, k) && ws[0] == StartWalk(level) && Turn(g, level, ws[|ws| - 1])
    ensures EntryAgain(g, ws, k)
  {
    var n := |ws| - 1;
    RunAt(g, level, ws, n);
    RunAt(g, level, ws, n - 1);
    if k > 0 {
      LiveInnerEntry(g, level, ws, k);
    } else if !g[ws[k].current].halfDead {
      RunAt(g, level, ws, 0);
      LiveFirst(g, level, ws[0], ws[n]);
    }
  }

  lemma FirstLivePasses(g: Graph, level: Level, ws: seq<Walk>, k: nat, us: seq<Walk>)
    requires LevelLap(g, level, ws, k) && Run(g, level, us) && us[0] == ws[|ws| - 1] && |us| == |ws| - k
    ensures FirstLiveAgain(g, ws, k)
  {
    forall j | k <= j < |ws| - 1 && ws[j].current in g && !g[ws[j].current].halfDead && NoneLive(g, ws, k, j)
      ensures TargetPage(g, g[ws[j].current], (if j == k then ws[|ws| - 1] else ws[j]).lowkey, ws[|ws| - 1].st).Pass?
    {
      StaysInStep(g, level, ws, k, us, j - k);
      RunAt(g, level, ws, j);
      assert TurnAt(g, level, us, j - k);
    }
  }

  /** Leaf pages are checked the same way whatever the child state and the low key. */
  lemma {:induction false} LeafItemsAgain(g: Graph, t: BtPage, lowkey: MaybeTuple, st: ChildState,
                                          lowkey': MaybeTuple, st': ChildState, off: nat)
    requires t.leaf && 1 <= off && ItemsLoop(g, t, lowkey, st, off).Pass?
    ensures ItemsLoop(g, t, lowkey', st', off).Pass?
    decreases MaxOffset(t) + 1 - off
  {
    if off <= MaxOffset(t) {
      LeafItemsAgain(g, t, lowkey, st, lowkey', st', off + 1);
    }
  }

  /** Once known, the leftmost block below stays known. */
  lemma {:induction false} NextLeftStays(g: Graph, level: Level, ws: seq<Walk>, i: nat, j: nat)
    requires Run(g, level, ws) && i <= j < |ws| && ws[i].nextLeft != INVALID_BLOCK
    ensures ws[j].nextLeft != INVALID_BLOCK
    decreases j - i
  {
    if i < j {
      assert TurnAt(g, level, ws, i);
      RunAt(g, level, ws, i);
      TurnLeaves(g, level, ws[i]);
      NextLeftStays(g, level, ws, i + 1, j);
    }
  }

  /** A live page of the cycle passes in the second lap if its own checks do. */
  lemma LiveTurn(g: Graph, level: Level, w: Walk, u: Walk)
    requires w.current != P_NONE && Turn(g, level, w) && !g[w.current].halfDead && u.current == w.current
    requires u.nextLeft != INVALID_BLOCK && g[w.current].prev == u.leftcurrent
    requires level.level > 0 ==> TargetPage(g, g[w.current], u.lowkey, u.st).Pass?
    ensures Turn(g, level, u)
  {
    var t := g[w.current];
    if level.level == 0 {
      LeafItemsAgain(g, t, w.lowkey, w.st, u.lowkey, u.st, FirstDataKey(t));
    }
  }

  lemma HalfDeadTurn(g: Graph, level: Level, w: Walk, u: Walk)
    requires Turn(g, level, w) && g[w.current].halfDead && u.current == w.current && u.leftcurrent != u.current
    ensures Turn(g, level, u)
  {
  }

  /** Behind a live page the leftmost block below is known. */
  lemma LiveSetsNextLeft(g: Graph, level: Level, ws: seq<Walk>, i: nat)
    requires Run(g, level, ws) && i + 1 < |ws| && ws[i].current in g && !g[ws[i].current].halfDead
    ensures ws[|ws| - 1].nextLeft != INVALID_BLOCK
  {
    RunAt(g, level, ws, i);
    assert TurnAt(g, level, ws, i);
    TurnLeaves(g, level, ws[i]);
    NextLeftStays(g, level, ws, i + 1, |ws| - 1);
  }

  /** The page on the left in the second lap, once the entry page may be entered again. */
  lemma LeftInSecondLap(g: Graph, level: Level, ws: seq<Walk>, k: nat, n: nat, u: Walk)
    requires LevelLap(g, level, ws, k) && EntryAgain(g, ws, k) && k + n + 1 < |ws|
    requires u.leftcurrent == (if n == 0 then ws[|ws| - 1] else ws[k + n]).leftcurrent
    ensures var w := ws[k + n];
            && Turn(g, level, w) && u.leftcurrent != w.current
            && (!g[w.current].halfDead ==> g[w.current].prev == u.leftcurrent)
  {
    RunAt(g, level, ws, k + n);
    if n > 0 {
      RunAt(g, level, ws, k + n - 1);
    } else {
      RunAt(g, level, ws, |ws| - 1);
    }
  }

  /** One turn of the second lap. */
  lemma SecondLapTurn(g: Graph, level: Level, ws: seq<Walk>, k: nat, us: seq<Walk>)
    requires LevelLap(g, level, ws, k) && RoundAgain(g, level, ws, k)
    requires Run(g, level, us) && us[0] == ws[|ws| - 1] && |us| < |ws| - k
    ensures Turn(g, level, us[|us| - 1])
  {
    var n := |us| - 1;
    var w, u := ws[k + n], us[n];
    StaysInStep(g, level, ws, k, us, n);
    RunAt(g, level, ws, k + n);
    LeftInSecondLap(g, level, ws, k, n, u);
    if g[w.current].halfDead {
      HalfDeadTurn(g, level, w, u);
    } else {
      LiveSetsNextLeft(g, level, ws, k + n);
      LiveTurn(g, level, w, u);
    }
  }

  lemma {:induction false} SecondLap(g: Graph, level: Level, ws: seq<Walk>, k: nat, n: nat) returns (us: seq<Walk>)
    requires LevelLap(g, level, ws, k) && RoundAgain(g, level, ws, k)
    requires n < |ws| - k
    ensures Run(g, level, us) && us[0] == ws[|ws| - 1] && |us| == n + 1
    decreases n
  {
    if n == 0 {
      us := [ws[|ws| - 1]];
      RunAt(g, level, ws, |ws| - 1);
    } else {
      us := SecondLap(g, level, ws, k, n - 1);
      SecondLapTurn(g, level, ws, k, us);
      RunGrows(g, level, us);
      us := us + [After(g, level, us[|us| - 1])];
    }
  }

  lemma SecondLapIsLap(g: Graph, level: Level, ws: seq<Walk>, k: nat, us: seq<Walk>)
    requires LevelLap(g, level, ws, k) && Run(g, level, us) && us[0] == ws[|ws| - 1] && |us| == |ws| - k
    ensures LevelLap(g, level, us, 0)
  {
    forall i | 0 <= i < |us| ensures us[i].current == ws[k + i].current {
      StaysInStep(g, level, ws, k, us, i);
    }
  }

  /** The walk is endless if and only if it passes over distinct pages back to one of them,
      at least one page in between; that entry page is half-dead, or it is the first page,
      live, and the page that closes the cycle is its half-dead left neighbour; and, above
      the leaf level, the cycle's first live page, if there is one, passes its own checks
      with the child state that the cycle's last live page leaves behind. */
  lemma LevelGoesRoundIff(g: Graph, level: Level)
    requires level.leftmost != P_NONE
    ensures CheckLevel(g, level) == EndlessLevel <==>
            exists ws, k :: LevelLap(g, level, ws, k) && ws[0] == StartWalk(level) && RoundAgain(g, level, ws, k)
  {
    if CheckLevel(g, level) == EndlessLevel {
      var ws, k, us := TwoLaps(g, level);
      assert TurnAt(g, level, us, 0);
      LiveEntry(g, level, ws, k);
      FirstLivePasses(g, level, ws, k, us);
    } else if exists ws, k :: LevelLap(g, level, ws, k) && ws[0] == StartWalk(level) && RoundAgain(g, level, ws, k) {
      var ws, k :| LevelLap(g, level, ws, k) && ws[0] == StartWalk(level) && RoundAgain(g, level, ws, k);
      var us := SecondLap(g, level, ws, k, |ws| - 1 - k);
      SecondLapIsLap(g, level, ws, k, us);
      TwoLapsAreEndless(g, level, ws, k, us, 0);
    }
  }
}
