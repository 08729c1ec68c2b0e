/** Update-chain validation of one heap page (contrib/amcheck/verify_heapam.c): the
    successor, lp_valid and predecessor arrays. */
module HeapChain {
  import opened Optional

  datatype XidCommitStatus = Committed | IsCurrentXid | InProgress | Aborted

  /** What the chain checks read of a tuple header, and what became of the inserting
      transaction: its commit status, if the tuple checks established one, and whether it is
      in progress when asked again. */
  datatype Tuple = Tuple(ctidBlock: nat, ctidOff: nat, xmin: nat, updateXid: nat, heapOnly: bool, hotUpdated: bool,
                         status: Option<XidCommitStatus>, stillInProgress: bool)

  datatype LinePointer = Unused | Dead | Redirect(to: nat) | Normal(off: nat, len: nat, t: Tuple)

  /** A page; line pointers have offsets 1 to |items|. */
  datatype Page = Page(blkno: nat, items: seq<LinePointer>) {
    function MaxOff(): nat { |items| }

    predicate Has(o: nat) { 1 <= o <= MaxOff() }

    function At(o: nat): LinePointer
      requires Has(o)
    {
      items[o - 1]
    }
  }

  const BLCKSZ := 8192
  const MAXIMUM_ALIGNOF := 8
  const MIN_TUPLE := 24

  datatype Report =
    | RedirectTooLow(o: nat) | RedirectTooHigh(o: nat)
    | RedirectToUnused(o: nat) | RedirectToDead(o: nat) | RedirectToRedirect(o: nat)
    | Misaligned(o: nat) | TooShort(o: nat) | PastPage(o: nat)
    | NonHotTarget(o: nat, n: nat) | Intersect(o: nat, n: nat, p: nat)
    | HeapOnlyFromPlain(o: nat, n: nat) | PlainFromHot(o: nat, n: nat) | HeapOnlyRoot(o: nat)
    | InProgressToCommitted(o: nat, n: nat) | AbortedToInProgress(o: nat, n: nat) | AbortedToCommitted(o: nat, n: nat)

  // ----- First pass: each line pointer by itself

  /** What is wrong with a line pointer. */
  function LpReport(page: Page, o: nat): Option<Report>
    requires page.Has(o)
  {
    match page.At(o)
    case Unused => None
    case Dead => None
    case Redirect(to) =>
      if to < 1 then Some(RedirectTooLow(o))
      else if to > page.MaxOff() then Some(RedirectTooHigh(o))
      else if page.At(to).Unused? then Some(RedirectToUnused(o))
      else if page.At(to).Dead? then Some(RedirectToDead(o))
      else if page.At(to).Redirect? then Some(RedirectToRedirect(o))
      else None
    case Normal(off, len, _) =>
      if off % MAXIMUM_ALIGNOF != 0 then Some(Misaligned(o))
      else if len < MIN_TUPLE then Some(TooShort(o))
      else if off + len > BLCKSZ then Some(PastPage(o))
      else None
  }

  function LpReports(page: Page, k: nat): seq<Report>
    requires k <= page.MaxOff()
  {
    if k == 0 then []
    else
      var r := LpReport(page, k);
      if r.Some? then LpReports(page, k - 1) + [r.value] else LpReports(page, k - 1)
  }

  predicate LpValid(page: Page, o: nat)
    requires page.Has(o)
  {
    (page.At(o).Redirect? || page.At(o).Normal?) && LpReport(page, o).None?
  }

  /** The offset a line pointer leads to on this page, or 0. */
  function Successor(page: Page, o: nat): (n: nat)
    requires page.Has(o)
    ensures n != 0 ==> page.Has(n)
  {
    if !LpValid(page, o) then 0
    else
      match page.At(o)
      case Redirect(to) => to
      case Normal(_, _, t) => if t.ctidBlock == page.blkno && t.ctidOff != o && page.Has(t.ctidOff) then t.ctidOff else 0
  }

  // ----- The chain relation

  /** o and n are consecutive in an update chain. */
  predicate Edge(page: Page, o: nat, n: nat)
    requires page.Has(o)
  {
    && n != 0 && n == Successor(page, o) && LpValid(page, n)
    && (page.At(o).Redirect? ||
        (page.At(n).Normal? && page.At(o).t.updateXid != 0 && page.At(o).t.updateXid == page.At(n).t.xmin))
  }

  /** The offset o has an edge to, or 0; no offset has two. */
  function Target(page: Page, o: nat): (n: nat)
    requires page.Has(o)
    ensures n != 0 ==> page.Has(n) && page.At(n).Normal?
  {
    var n := Successor(page, o);
    if Edge(page, o, n) then n else 0
  }

  lemma TargetIff(page: Page, o: nat, n: nat)
    requires page.Has(o) && n != 0
    ensures Target(page, o) == n <==> Edge(page, o, n)
  {
  }

  function TargetsOf(page: Page): (ts: seq<nat>)
    ensures |ts| == page.MaxOff()
  {
    seq(page.MaxOff(), i requires 0 <= i < page.MaxOff() => Target(page, i + 1))
  }

  // ----- Claims: offsets 1..k lead, in turn, to ts[0], ts[1], ... (0 is nowhere)

  /** Who was first to lead to n, or 0. */
  function Pred(ts: seq<nat>, k: nat, n: nat): (p: nat)
    requires k <= |ts|
    ensures p <= k
  {
    if k == 0 then 0
    else
      var p := Pred(ts, k - 1, n);
      if p == 0 && n != 0 && ts[k - 1] == n then k else p
  }

  /** How many lead somewhere, and where to. */
  function ClaimCount(ts: seq<nat>, k: nat): nat
    requires k <= |ts|
  {
    if k == 0 then 0 else ClaimCount(ts, k - 1) + if ts[k - 1] != 0 then 1 else 0
  }

  function Claimed(ts: seq<nat>, k: nat): set<nat>
    requires k <= |ts|
  {
    if k == 0 then {} else Claimed(ts, k - 1) + if ts[k - 1] != 0 then {ts[k - 1]} else {}
  }

  /** k leads where another led before. */
  predicate LateClaim(ts: seq<nat>, k: nat)
    requires 1 <= k <= |ts|
  {
    ts[k - 1] != 0 && Pred(ts, k - 1, ts[k - 1]) != 0
  }

  /** The reports of late claims. */
  function LateClaims(ts: seq<nat>, k: nat): seq<Report>
    requires k <= |ts|
  {
    if k == 0 then []
    else if LateClaim(ts, k) then
      LateClaims(ts, k - 1) + [Intersect(k, ts[k - 1], Pred(ts, k - 1, ts[k - 1]))]
    else LateClaims(ts, k - 1)
  }

  lemma {:induction false} PredIsFirst(ts: seq<nat>, k: nat, n: nat)
    requires k <= |ts| && n != 0
    ensures var p := Pred(ts, k, n);
            && (p != 0 ==> 1 <= p <= k && ts[p - 1] == n && forall i :: 0 <= i < p - 1 ==> ts[i] != n)
            && (p == 0 ==> forall i :: 0 <= i < k ==> ts[i] != n)
    decreases k
  {
    if k != 0 {
      PredIsFirst(ts, k - 1, n);
    }
  }

  lemma {:induction false} ZeroHasNone(ts: seq<nat>, k: nat)
    requires k <= |ts|
    ensures Pred(ts, k, 0) == 0
    decreases k
  {
    if k != 0 {
      ZeroHasNone(ts, k - 1);
    }
  }

  lemma {:induction false} ClaimedIff(ts: seq<nat>, k: nat, n: nat)
    requires k <= |ts| && n != 0
    ensures n in Claimed(ts, k) <==> Pred(ts, k, n) != 0
    decreases k
  {
    if k != 0 {
      ClaimedIff(ts, k - 1, n);
    }
  }

  /** Conservation: each claim is the first on its target or late. */
  lemma {:induction false} LateClaimsAreSurplus(ts: seq<nat>, k: nat)
    requires k <= |ts|
    ensures |LateClaims(ts, k)| + |Claimed(ts, k)| == ClaimCount(ts, k)
    decreases k
  {
    if k != 0 {
      LateClaimsAreSurplus(ts, k - 1);
      var n := ts[k - 1];
      if n != 0 {
        ClaimedIff(ts, k - 1, n);
        if n in Claimed(ts, k - 1) {
          assert Claimed(ts, k - 1) + {n} == Claimed(ts, k - 1);
        }
      }
    }
  }

  /** No two lead to the same place. */
  predicate Injective(ts: seq<nat>, k: nat)
    requires k <= |ts|
  {
    forall o, o' :: 0 <= o < o' < k && ts[o] != 0 ==> ts[o] != ts[o']
  }

  lemma {:induction false} NoneLateIff(ts: seq<nat>, k: nat)
    requires k <= |ts|
    ensures LateClaims(ts, k) == [] <==> Injective(ts, k)
    decreases k
  {
    if k != 0 {
      NoneLateIff(ts, k - 1);
      var n := ts[k - 1];
      if n != 0 {
        PredIsFirst(ts, k - 1, n);
      }
    }
  }

  // ----- Second pass: the flags and transactions of linked tuples

  /** What is wrong with the flags of o's target n; of tuples only looked at when o is the
      first to lead there. */
  function FlagReport(page: Page, o: nat, first: bool): Option<Report>
    requires page.Has(o)
  {
    var n := Target(page, o);
    if n == 0 then None
    else if page.At(o).Redirect? then (if page.At(n).t.heapOnly then None else Some(NonHotTarget(o, n)))
    else if !first then None
    else if !page.At(o).t.hotUpdated && page.At(n).t.heapOnly then Some(HeapOnlyFromPlain(o, n))
    else if page.At(o).t.hotUpdated && !page.At(n).t.heapOnly then Some(PlainFromHot(o, n))
    else None
  }

  function FlagReports(page: Page, k: nat): seq<Report>
    requires k <= page.MaxOff()
  {
    if k == 0 then []
    else
      var r := FlagReport(page, k, !LateClaim(TargetsOf(page), k));
      if r.Some? then FlagReports(page, k - 1) + [r.value] else FlagReports(page, k - 1)
  }

  /** What is wrong with the commit statuses of a tuple and its update. */
  function StatusReport(page: Page, o: nat, first: bool): Option<Report>
    requires page.Has(o)
  {
    var n := Target(page, o);
    if n == 0 || page.At(o).Redirect? || !first then None
    else
      var was, now := page.At(o).t.status, page.At(n).t.status;
      if was == Some(InProgress) && now == Some(Committed) && page.At(o).t.stillInProgress
      then Some(InProgressToCommitted(o, n))
      else if was == Some(Aborted) && now == Some(InProgress) then Some(AbortedToInProgress(o, n))
      else if was == Some(Aborted) && now == Some(Committed) then Some(AbortedToCommitted(o, n))
      else None
  }

  function StatusReports(page: Page, k: nat): seq<Report>
    requires k <= page.MaxOff()
  {
    if k == 0 then []
    else
      var r := StatusReport(page, k, !LateClaim(TargetsOf(page), k));
      if r.Some? then StatusReports(page, k - 1) + [r.value] else StatusReports(page, k - 1)
  }

  /** One turn of the second loop. */
  lemma SecondPassStep(page: Page, o: nat)
    requires page.Has(o)
    ensures var ts, n := TargetsOf(page), Target(page, o);
            var p := Pred(ts, o - 1, n);
            var flag, status := FlagReport(page, o, p == 0), StatusReport(page, o, p == 0);
            && (n == 0 ==> p == 0)
            && LateClaims(ts, o) == (if p != 0 then LateClaims(ts, o - 1) + [Intersect(o, n, p)] else LateClaims(ts, o - 1))
            && FlagReports(page, o) == (if flag.Some? then FlagReports(page, o - 1) + [flag.value] else FlagReports(page, o - 1))
            && StatusReports(page, o) ==
               (if status.Some? then StatusReports(page, o - 1) + [status.value] else StatusReports(page, o - 1))
            && forall i :: 1 <= i <= page.MaxOff() ==> Pred(ts, o, i) == if i == n && p == 0 then o else Pred(ts, o - 1, i)
  {
    ZeroHasNone(TargetsOf(page), o - 1);
  }

  // ----- What the second pass amounts to

  /** The predecessor of n is the least offset with an edge to it; 0 means there is none. */
  lemma PredecessorIsLeast(page: Page, n: nat)
    requires n != 0
    ensures var p := Pred(TargetsOf(page), page.MaxOff(), n);
            && (p != 0 ==> page.Has(p) && Edge(page, p, n) && forall o :: 1 <= o < p ==> !Edge(page, o, n))
            && (p == 0 ==> Orphan(page, n))
  {
    var ts, p := TargetsOf(page), Pred(TargetsOf(page), page.MaxOff(), n);
    PredIsFirst(ts, page.MaxOff(), n);
    forall o | 1 <= o <= page.MaxOff() ensures Target(page, o) == ts[o - 1] && (ts[o - 1] == n <==> Edge(page, o, n)) {
      TargetIff(page, o, n);
    }
  }

  /** No line pointer has an edge to n. */
  predicate Orphan(page: Page, n: nat) {
    forall o :: 1 <= o <= page.MaxOff() ==> !Edge(page, o, n)
  }

  /** No two line pointers have an edge to the same tuple. */
  ghost predicate ChainsApart(page: Page) {
    forall o, o', n :: page.Has(o) && page.Has(o') && Edge(page, o, n) && Edge(page, o', n) ==> o == o'
  }

  /** The reports count the edges in excess of distinct targets, and there are none exactly if
      chains do not meet. */
  lemma IntersectionReports(page: Page)
    ensures var ts, n := TargetsOf(page), page.MaxOff();
            && |LateClaims(ts, n)| == ClaimCount(ts, n) - |Claimed(ts, n)|
            && (LateClaims(ts, n) == [] <==> ChainsApart(page))
  {
    var ts, n := TargetsOf(page), page.MaxOff();
    LateClaimsAreSurplus(ts, n);
    NoneLateIff(ts, n);
    ApartIff(page);
  }

  lemma ApartIff(page: Page)
    ensures ChainsApart(page) <==> Injective(TargetsOf(page), page.MaxOff())
  {
    var ts := TargetsOf(page);
    if ChainsApart(page) {
      forall o, o' | 0 <= o < o' < |ts| && ts[o] != 0 ensures ts[o] != ts[o'] {
        TargetIff(page, o + 1, ts[o]);
        TargetIff(page, o' + 1, ts[o]);
      }
    }
    if Injective(ts, |ts|) {
      forall o, o', n | page.Has(o) && page.Has(o') && Edge(page, o, n) && Edge(page, o', n) ensures o == o' {
        TargetIff(page, o, n);
        TargetIff(page, o', n);
        assert ts[o - 1] == n == ts[o' - 1];
      }
    }
  }

  /** A heap-only tuple, its transaction committed or in progress, that no chain leads to. */
  predicate BadRoot(page: Page, o: nat)
    requires page.Has(o)
  {
    && LpValid(page, o) && page.At(o).Normal? && page.At(o).t.status in {Some(Committed), Some(InProgress)}
    && page.At(o).t.heapOnly && Orphan(page, o)
  }

  // ----- Chains are paths and cycles

  predicate InBounds(ts: seq<nat>) {
    forall i :: 0 <= i < |ts| ==> ts[i] <= |ts|
  }

  /** The offset that i steps lead to from o, 0 behind the end of a chain. */
  function Follow(ts: seq<nat>, o: nat, i: nat): (p: nat)
    requires InBounds(ts) && o <= |ts|
    ensures p <= |ts|
    decreases i
  {
    if i == 0 || o == 0 then o else Follow(ts, ts[o - 1], i - 1)
  }

  lemma {:induction false} FollowAdd(ts: seq<nat>, o: nat, i: nat, j: nat)
    requires InBounds(ts) && o <= |ts|
    ensures Follow(ts, o, i + j) == Follow(ts, Follow(ts, o, i), j)
    decreases i
  {
    if i != 0 && o != 0 {
      FollowAdd(ts, ts[o - 1], i - 1, j);
    }
  }

  /** The i-th step, seen from its end. */
  lemma FollowLast(ts: seq<nat>, o: nat, i: nat)
    requires InBounds(ts) && o <= |ts|
    ensures var p := Follow(ts, o, i); Follow(ts, o, i + 1) == if p == 0 then 0 else ts[p - 1]
  {
    FollowAdd(ts, o, i, 1);
    var p := Follow(ts, o, i);
    assert p != 0 ==> Follow(ts, p, 1) == Follow(ts, ts[p - 1], 0);
  }

  /** If no two lead to the same place, walks that meet have come the same way: the shorter one
      started on the longer one. */
  lemma {:induction false} WalksThatMeet(ts: seq<nat>, o: nat, i: nat, p: nat, j: nat)
    requires InBounds(ts) && Injective(ts, |ts|) && 1 <= o <= |ts| && 1 <= p <= |ts|
    requires Follow(ts, o, i) == Follow(ts, p, i + j) != 0
    ensures Follow(ts, p, j) == o
    decreases i
  {
    if i > 0 {
      var k: nat := i - 1;
      FollowLast(ts, o, k);
      FollowLast(ts, p, k + j);
      var x, y := Follow(ts, o, k), Follow(ts, p, k + j);
      assert ts[x - 1] == ts[y - 1] != 0;
      WalksThatMeet(ts, o, k, p, j);
    }
  }

  lemma {:induction false} Pigeonhole(xs: seq<nat>, n: nat) returns (i: nat, j: nat)
    requires |xs| == n + 1 && forall k :: 0 <= k < |xs| ==> 1 <= xs[k] <= n
    ensures i < j < |xs| && xs[i] == xs[j]
    decreases n
  {
    if k :| 0 <= k < n && xs[k] == xs[n] {
      i, j := k, n;
    } else {
      var ys := seq(n, k requires 0 <= k < n => if xs[k] == n then xs[n] else xs[k]);
      i, j := Pigeonhole(ys, n - 1);
    }
  }

  /** A walk that does not end within |ts| steps meets a place twice. */
  lemma Repeats(ts: seq<nat>, o: nat) returns (i: nat, j: nat)
    requires InBounds(ts) && 1 <= o <= |ts| && Follow(ts, o, |ts|) != 0
    ensures i < j <= |ts| && Follow(ts, o, i) == Follow(ts, o, j) != 0
  {
    var xs := seq(|ts| + 1, k requires 0 <= k <= |ts| => Follow(ts, o, k));
    forall k | 0 <= k < |xs| ensures 1 <= xs[k] <= |ts| {
      FollowAdd(ts, o, k, |ts| - k);
    }
    i, j := Pigeonhole(xs, |ts|);
  }

  ghost predicate OnCycle(ts: seq<nat>, o: nat)
    requires InBounds(ts) && 1 <= o <= |ts|
  {
    exists i :: 1 <= i <= |ts| && Follow(ts, o, i) == o
  }

  /** Where no two chains intersect, the edges of a page form disjoint paths and cycles: every
      chain ends, or comes back to where it started. */
  lemma PathsAndCycles(page: Page, o: nat)
    requires page.Has(o) && LateClaims(TargetsOf(page), page.MaxOff()) == []
    ensures var ts := TargetsOf(page); Follow(ts, o, |ts|) == 0 <==> !OnCycle(ts, o)
  {
    var ts := TargetsOf(page);
    NoneLateIff(ts, |ts|);
    PathOrCycle(ts, o);
  }

  lemma PathOrCycle(ts: seq<nat>, o: nat)
    requires InBounds(ts) && Injective(ts, |ts|) && 1 <= o <= |ts|
    ensures Follow(ts, o, |ts|) == 0 <==> !OnCycle(ts, o)
  {
    if Follow(ts, o, |ts|) != 0 {
      var i, j := Repeats(ts, o);
      WalksThatMeet(ts, o, i, o, j - i);
    } else if OnCycle(ts, o) {
      var i :| 1 <= i <= |ts| && Follow(ts, o, i) == o;
      RoundAndRound(ts, o, i, |ts|);
    }
  }

  /** And chains that meet are one chain: the later one to arrive came through the start of
      the other. */
  lemma ChainsThatMeet(page: Page, o: nat, i: nat, p: nat, j: nat)
    requires page.Has(o) && page.Has(p) && LateClaims(TargetsOf(page), page.MaxOff()) == []
    requires Follow(TargetsOf(page), o, i) == Follow(TargetsOf(page), p, i + j) != 0
    ensures Follow(TargetsOf(page), p, j) == o
  {
    NoneLateIff(TargetsOf(page), page.MaxOff());
    WalksThatMeet(TargetsOf(page), o, i, p, j);
  }

  /** A walk round a cycle never ends. */
  lemma {:induction false} RoundAndRound(ts: seq<nat>, o: nat, i: nat, n: nat)
    requires InBounds(ts) && 1 <= o <= |ts| && i >= 1 && Follow(ts, o, i) == o
    ensures Follow(ts, o, n) != 0
    decreases n
  {
    if n >= i {
      FollowAdd(ts, o, i, n - i);
      RoundAndRound(ts, o, i, n - i);
    } else {
      FollowAdd(ts, o, n, i - n);
    }
  }

  // ----- Aborted stays aborted

  lemma {:induction false} QuietAt(page: Page, k: nat, o: nat)
    requires 1 <= o <= k <= page.MaxOff() && StatusReports(page, k) == []
    ensures StatusReport(page, o, !LateClaim(TargetsOf(page), o)).None?
    decreases k
  {
    if o < k {
      QuietAt(page, k - 1, o);
    }
  }

  /** On a page without intersections or status reports, the update of a tuple whose
      transaction aborted comes from no transaction that committed or is in progress. */
  lemma AbortedStep(page: Page, o: nat)
    requires page.Has(o) && Target(page, o) != 0 && page.At(o).Normal? && page.At(o).t.status == Some(Aborted)
    requires LateClaims(TargetsOf(page), page.MaxOff()) == [] && StatusReports(page, page.MaxOff()) == []
    ensures page.At(Target(page, o)).t.status !in {Some(Committed), Some(InProgress)}
  {
    NoneLateIff(TargetsOf(page), page.MaxOff());
    QuietAt(page, page.MaxOff(), o);
    NotLate(TargetsOf(page), o);
  }

  lemma NotLate(ts: seq<nat>, k: nat)
    requires 1 <= k <= |ts| && Injective(ts, |ts|)
    ensures !LateClaim(ts, k)
  {
    if ts[k - 1] != 0 {
      PredIsFirst(ts, k - 1, ts[k - 1]);
    }
  }

  /** The transaction's fate is known, and it is not the one doing the check. */
  predicate FateKnown(page: Page, o: nat) {
    page.Has(o) && page.At(o).Normal? && page.At(o).t.status in {Some(Committed), Some(InProgress), Some(Aborted)}
  }

  /** So along a chain of tuples of known fate nothing but aborted follows the first aborted one. */
  lemma {:induction false} AbortedStaysAborted(page: Page, o: nat, i: nat)
    requires LateClaims(TargetsOf(page), page.MaxOff()) == [] && StatusReports(page, page.MaxOff()) == []
    requires page.Has(o) && page.At(o).Normal? && page.At(o).t.status == Some(Aborted)
    requires forall j: nat :: j <= i ==> FateKnown(page, Follow(TargetsOf(page), o, j))
    ensures FateKnown(page, Follow(TargetsOf(page), o, i))
    ensures page.At(Follow(TargetsOf(page), o, i)).t.status == Some(Aborted)
    decreases i
  {
    if i > 0 {
      var ts, k: nat := TargetsOf(page), i - 1;
      AbortedStaysAborted(page, o, k);
      assert FateKnown(page, Follow(ts, o, k)) && FateKnown(page, Follow(ts, o, i));
      FollowLast(ts, o, k);
      AbortedStep(page, Follow(ts, o, k));
    }
  }

  // ----- When there is no cycle

  ghost predicate NoCycle(ts: seq<nat>)
    requires InBounds(ts)
  {
    forall o, i: nat :: 1 <= o <= |ts| && i >= 1 ==> Follow(ts, o, i) != o
  }

  /** A numbering of the offsets that goes up along every edge. */
  predicate Climbs(ts: seq<nat>, rank: seq<nat>)
    requires InBounds(ts)
  {
    |rank| == |ts| && forall o :: 0 <= o < |ts| && ts[o] != 0 ==> rank[o] < rank[ts[o] - 1]
  }

  lemma {:induction false} ClimbsAlong(ts: seq<nat>, rank: seq<nat>, o: nat, i: nat)
    requires InBounds(ts) && Climbs(ts, rank) && 1 <= o <= |ts| && i >= 1 && Follow(ts, o, i) != 0
    ensures rank[o - 1] < rank[Follow(ts, o, i) - 1]
    decreases i
  {
    if i > 1 {
      var k: nat := i - 1;
      assert Follow(ts, o, i) == Follow(ts, ts[o - 1], k);
      ClimbsAlong(ts, rank, ts[o - 1], k);
    } else {
      assert Follow(ts, o, 1) == Follow(ts, ts[o - 1], 0);
    }
  }

  /** How many steps it takes to leave the page. */
  function Steps(ts: seq<nat>, o: nat, fuel: nat): (n: nat)
    requires InBounds(ts) && o <= |ts|
    ensures n <= fuel
    decreases fuel
  {
    if fuel == 0 || o == 0 then 0 else 1 + Steps(ts, ts[o - 1], fuel - 1)
  }

  lemma {:induction false} EnoughFuel(ts: seq<nat>, o: nat, fuel: nat)
    requires InBounds(ts) && o <= |ts| && Follow(ts, o, fuel) == 0
    ensures Steps(ts, o, fuel + 1) == Steps(ts, o, fuel)
    decreases fuel
  {
    if o != 0 {
      EnoughFuel(ts, ts[o - 1], fuel - 1);
    }
  }

  /** Without a cycle every walk ends. */
  lemma WalkEnds(ts: seq<nat>, o: nat)
    requires InBounds(ts) && NoCycle(ts) && 1 <= o <= |ts|
    ensures Follow(ts, o, |ts|) == 0
  {
    if Follow(ts, o, |ts|) != 0 {
      var i, j := Repeats(ts, o);
      FollowAdd(ts, o, i, j - i);
    }
  }

  /** There is no cycle if and only if the offsets can be numbered upwards along the edges. */
  lemma NoCycleIff(ts: seq<nat>)
    requires InBounds(ts)
    ensures NoCycle(ts) <==> exists rank :: Climbs(ts, rank)
  {
    if NoCycle(ts) {
      var rank: seq<nat> := seq(|ts|, i requires 0 <= i < |ts| => |ts| - Steps(ts, i + 1, |ts|));
      forall o | 0 <= o < |ts| && ts[o] != 0 ensures rank[o] < rank[ts[o] - 1] {
        WalkEnds(ts, o + 1);
        assert Follow(ts, o + 1, |ts|) == Follow(ts, ts[o], |ts| - 1);
        EnoughFuel(ts, ts[o], |ts| - 1);
      }
      assert Climbs(ts, rank);
    }
    if exists rank :: Climbs(ts, rank) {
      var rank :| Climbs(ts, rank);
      forall o, i: nat | 1 <= o <= |ts| && i >= 1 ensures Follow(ts, o, i) != o {
        if Follow(ts, o, i) != 0 {
          ClimbsAlong(ts, rank, o, i);
        }
      }
    }
  }

  /** The tuple has an edge, and so an update. */
  predicate Updated(page: Page, o: nat) {
    page.Has(o) && page.At(o).Normal? && Target(page, o) != 0
  }

  /** In this order of transactions no tuple is updated by one that comes before the one that
      inserted it. */
  ghost predicate NeverEarlier(page: Page, order: nat -> int) {
    forall o :: Updated(page, o) ==> order(page.At(o).t.xmin) <= order(page.At(o).t.updateXid)
  }

  /** Where order does not tell them apart, as with the commands of one transaction, the
      version comes before its update. */
  ghost predicate CommandsClimb(page: Page, order: nat -> int, command: seq<nat>) {
    && |command| == page.MaxOff()
    && forall o :: Updated(page, o) && order(page.At(o).t.xmin) == order(page.At(o).t.updateXid) ==>
         command[o - 1] < command[Target(page, o) - 1]
  }

  /** Further along a chain: a later transaction, or the same and a later command. */
  predicate LaterVersion(page: Page, order: nat -> int, command: seq<nat>, o: nat, p: nat)
    requires |command| == page.MaxOff() && page.Has(o) && page.Has(p) && page.At(o).Normal? && page.At(p).Normal?
  {
    var before, after := order(page.At(o).t.xmin), order(page.At(p).t.xmin);
    before < after || (before == after && command[o - 1] < command[p - 1])
  }

  lemma {:induction false} VersionsClimb(page: Page, order: nat -> int, command: seq<nat>, o: nat, i: nat)
    requires NeverEarlier(page, order) && CommandsClimb(page, order, command)
    requires page.Has(o) && i >= 1 && Follow(TargetsOf(page), o, i) != 0
    ensures var p := Follow(TargetsOf(page), o, i);
            && page.Has(p) && page.At(p).Normal?
            && (page.At(o).Normal? ==> LaterVersion(page, order, command, o, p))
    decreases i
  {
    var ts, n := TargetsOf(page), Target(page, o);
    assert ts[o - 1] == n;
    var k: nat := i - 1;
    assert Follow(ts, o, i) == Follow(ts, n, k);
    if page.At(o).Normal? {
      assert Updated(page, o);
    }
    if k > 0 {
      VersionsClimb(page, order, command, n, k);
    }
  }

  /** If no tuple was updated by an earlier transaction than the one that inserted it, a
      cycle can only be among tuples of one transaction: there is none at all if and only if
      those can be numbered so that every update comes after the version it replaces. A
      redirect is on no cycle, because nothing leads to one. */
  lemma LaterUpdatesMakeNoCycle(page: Page, order: nat -> int)
    requires NeverEarlier(page, order)
    ensures NoCycle(TargetsOf(page)) <==> exists command :: CommandsClimb(page, order, command)
  {
    var ts := TargetsOf(page);
    if NoCycle(ts) {
      NoCycleIff(ts);
      var rank :| Climbs(ts, rank);
      assert CommandsClimb(page, order, rank) by {
        forall o | Updated(page, o) ensures rank[o - 1] < rank[Target(page, o) - 1] {
          assert ts[o - 1] == Target(page, o);
        }
      }
    }
    if exists command :: CommandsClimb(page, order, command) {
      var command :| CommandsClimb(page, order, command);
      forall o, i: nat | 1 <= o <= |ts| && i >= 1 ensures Follow(ts, o, i) != o {
        if Follow(ts, o, i) != 0 {
          VersionsClimb(page, order, command, o, i);
        }
      }
    }
  }

  /** Silence does not rule out a cycle: two tuples, their transactions committed, that each
      claim to be the other's update. */
  function TwoCycle(): Page {
    Page(0, [Normal(8000, 24, Tuple(0, 2, 10, 20, false, false, Some(Committed), false)),
             Normal(8024, 24, Tuple(0, 1, 20, 10, false, false, Some(Committed), false))])
  }

  lemma CycleIsSilent()
    ensures var page := TwoCycle();
            && Edge(page, 1, 2) && Edge(page, 2, 1) && !NoCycle(TargetsOf(page))
            && LpReports(page, 2) == LateClaims(TargetsOf(page), 2) == FlagReports(page, 2) == StatusReports(page, 2) == []
            && !BadRoot(page, 1) && !BadRoot(page, 2)
  {
    var page := TwoCycle();
    assert LpReport(page, 1).None? && LpReport(page, 2).None?;
    assert Edge(page, 1, 2) && Edge(page, 2, 1);
    var ts := TargetsOf(page);
    assert ts == [2, 1];
    assert Pred(ts, 0, 2) == 0 && Pred(ts, 1, 1) == 0;
    assert LpReports(page, 1) == [];
    assert LateClaims(ts, 1) == [] && LateClaims(ts, 2) == [];
    assert FlagReports(page, 1) == [] && FlagReports(page, 2) == [];
    assert StatusReports(page, 1) == [] && StatusReports(page, 2) == [];
    assert Follow(ts, 1, 2) == Follow(ts, 2, 1) == Follow(ts, 1, 0) == 1;
  }

  // ----- The check

  /** Reports are kept apart by the check that makes them. */
  class ChainCheck {
    const page: Page
    const successor: array<nat>
    const lpValid: array<bool>
    const predecessor: array<nat>
    var lpReports: seq<Report>
    var intersections: seq<Report>
    var flagReports: seq<Report>
    var statusReports: seq<Report>
    var rootReports: seq<Report>

    ghost predicate Valid()
      reads this
    {
      && successor.Length == lpValid.Length == predecessor.Length == page.MaxOff() + 1
      && successor != predecessor
    }

    constructor (page: Page)
      ensures Valid() && this.page == page
      ensures fresh(successor) && fresh(lpValid) && fresh(predecessor)
      ensures lpReports == intersections == flagReports == statusReports == rootReports == []
      ensures forall n :: 0 <= n <= page.MaxOff() ==> predecessor[n] == 0
    {
      this.page := page;
      successor := new nat[page.MaxOff() + 1](_ => 0);
      lpValid := new bool[page.MaxOff() + 1](_ => false);
      predecessor := new nat[page.MaxOff() + 1](_ => 0);
      lpReports, intersections, flagReports, statusReports, rootReports := [], [], [], [], [];
    }

    /** The first loop has filled in offsets below k. */
    ghost predicate Filled(k: nat)
      requires Valid()
      reads this, successor, lpValid
    {
      forall o :: 1 <= o < k && o <= page.MaxOff() ==> successor[o] == Successor(page, o) && lpValid[o] == LpValid(page, o)
    }

    /** The checks of one line pointer. */
    method CheckLinePointer(o: nat)
      requires Valid() && page.Has(o)
      modifies successor, lpValid, this`lpReports
      ensures var r := LpReport(page, o); lpReports == if r.Some? then old(lpReports) + [r.value] else old(lpReports)
      ensures successor[o] == Successor(page, o) && lpValid[o] == LpValid(page, o)
      ensures forall i :: 0 <= i <= page.MaxOff() && i != o ==>
                successor[i] == old(successor[i]) && lpValid[i] == old(lpValid[i])
    {
      successor[o] := 0;
      lpValid[o] := false;
      match page.At(o)
      case Unused =>
      case Dead =>
      case Redirect(to) =>
        if to < 1 {
          lpReports := lpReports + [RedirectTooLow(o)];
        } else if to > page.MaxOff() {
          lpReports := lpReports + [RedirectTooHigh(o)];
        } else if page.At(to).Unused? {
          lpReports := lpReports + [RedirectToUnused(o)];
        } else if page.At(to).Dead? {
          lpReports := lpReports + [RedirectToDead(o)];
        } else if page.At(to).Redirect? {
          lpReports := lpReports + [RedirectToRedirect(o)];
        } else {
          lpValid[o] := true;
          successor[o] := to;
        }
      case Normal(off, len, t) =>
        if off % MAXIMUM_ALIGNOF != 0 {
          lpReports := lpReports + [Misaligned(o)];
        } else if len < MIN_TUPLE {
          lpReports := lpReports + [TooShort(o)];
        } else if off + len > BLCKSZ {
          lpReports := lpReports + [PastPage(o)];
        } else {
          lpValid[o] := true;
          if t.ctidBlock == page.blkno && t.ctidOff != o && 1 <= t.ctidOff <= page.MaxOff() {
            successor[o] := t.ctidOff;
          }
        }
    }

    /** The first loop. */
    method CheckLinePointers()
      requires Valid() && lpReports == []
      modifies successor, lpValid, this`lpReports
      ensures Filled(page.MaxOff() + 1) && lpReports == LpReports(page, page.MaxOff())
    {
      var o := 1;
      while o <= page.MaxOff()
        invariant 1 <= o <= page.MaxOff() + 1 && Filled(o) && lpReports == LpReports(page, o - 1)
      {
        CheckLinePointer(o);
        o := o + 1;
      }
    }

    /** The target of o's edge, read off the arrays; 0 if there is none. */
    method TargetOf(o: nat) returns (n: nat)
      requires Valid() && Filled(page.MaxOff() + 1) && page.Has(o)
      ensures n == Target(page, o)
    {
      n := successor[o];
      if n == 0 || !lpValid[n] {
        return 0;
      }
      if page.At(o).Redirect? {
        return n;
      }
      if page.At(n).Redirect? {
        return 0;
      }
      if page.At(o).t.updateXid == 0 || page.At(o).t.updateXid != page.At(n).t.xmin {
        return 0;
      }
    }

    /** The checks of a tuple's flags and commit status against those of its update. */
    method CompareTuples(o: nat, n: nat)
      requires page.Has(o) && n != 0 && n == Target(page, o) && !page.At(o).Redirect?
      modifies this`flagReports, this`statusReports
      ensures var flag, status := FlagReport(page, o, true), StatusReport(page, o, true);
              && flagReports == (if flag.Some? then old(flagReports) + [flag.value] else old(flagReports))
              && statusReports == (if status.Some? then old(statusReports) + [status.value] else old(statusReports))
    {
      var curr, next := page.At(o).t, page.At(n).t;
      if !curr.hotUpdated && next.heapOnly {
        flagReports := flagReports + [HeapOnlyFromPlain(o, n)];
      }
      if curr.hotUpdated && !next.heapOnly {
        flagReports := flagReports + [PlainFromHot(o, n)];
      }
      if curr.status == Some(InProgress) && next.status == Some(Committed) && curr.stillInProgress {
        statusReports := statusReports + [InProgressToCommitted(o, n)];
      }
      if curr.status == Some(Aborted) && next.status.Some? {
        if next.status.value == InProgress {
          statusReports := statusReports + [AbortedToInProgress(o, n)];
        } else if next.status.value == Committed {
          statusReports := statusReports + [AbortedToCommitted(o, n)];
        }
      }
    }

    /** One turn of the second loop. */
    method VisitOffset(o: nat)
      requires Valid() && Filled(page.MaxOff() + 1) && page.Has(o)
      modifies predecessor, this`intersections, this`flagReports, this`statusReports
      ensures var n := Target(page, o);
              var p := if n == 0 then 0 else old(predecessor[n]);
              var flag, status := FlagReport(page, o, p == 0), StatusReport(page, o, p == 0);
              && intersections == (if p != 0 then old(intersections) + [Intersect(o, n, p)] else old(intersections))
              && flagReports == (if flag.Some? then old(flagReports) + [flag.value] else old(flagReports))
              && statusReports == (if status.Some? then old(statusReports) + [status.value] else old(statusReports))
              && forall i :: 0 <= i <= page.MaxOff() ==>
                   predecessor[i] == if i == n != 0 && p == 0 then o else old(predecessor[i])
    {
      var n := TargetOf(o);
      if n == 0 {
        return;
      }
      if page.At(o).Redirect? {
        if !page.At(n).t.heapOnly {
          flagReports := flagReports + [NonHotTarget(o, n)];
        }
        if predecessor[n] != 0 {
          intersections := intersections + [Intersect(o, n, predecessor[n])];
          return;
        }
        predecessor[n] := o;
        return;
      }
      if predecessor[n] != 0 {
        intersections := intersections + [Intersect(o, n, predecessor[n])];
        return;
      }
      predecessor[n] := o;
      CompareTuples(o, n);
    }

    /** The second loop has dealt with offsets 1..k. */
    ghost predicate Reached(k: nat)
      requires Valid() && k <= page.MaxOff()
      reads this, predecessor
    {
      && intersections == LateClaims(TargetsOf(page), k)
      && flagReports == FlagReports(page, k) && statusReports == StatusReports(page, k)
      && forall n :: 1 <= n <= page.MaxOff() ==> predecessor[n] == Pred(TargetsOf(page), k, n)
    }

    method VisitNext(o: nat)
      requires Valid() && Filled(page.MaxOff() + 1) && page.Has(o) && Reached(o - 1)
      modifies predecessor, this`intersections, this`flagReports, this`statusReports
      ensures Reached(o)
    {
      SecondPassStep(page, o);
      VisitOffset(o);
    }

    /** The second loop. */
    method CheckChains()
      requires Valid() && Filled(page.MaxOff() + 1) && intersections == flagReports == statusReports == []
      requires forall n :: 0 <= n <= page.MaxOff() ==> predecessor[n] == 0
      modifies predecessor, this`intersections, this`flagReports, this`statusReports
      ensures intersections == LateClaims(TargetsOf(page), page.MaxOff())
      ensures flagReports == FlagReports(page, page.MaxOff()) && statusReports == StatusReports(page, page.MaxOff())
      ensures forall n :: 1 <= n <= page.MaxOff() ==> predecessor[n] == Pred(TargetsOf(page), page.MaxOff(), n)
    {
      var k: nat := 0;
      while k < page.MaxOff()
        invariant k <= page.MaxOff() && Filled(page.MaxOff() + 1) && Reached(k)
      {
        VisitNext(k + 1);
        k := k + 1;
      }
    }

    /** The third loop. */
    method CheckRoots()
      requires Valid() && Filled(page.MaxOff() + 1) && rootReports == []
      requires forall o :: 1 <= o <= page.MaxOff() ==> predecessor[o] == Pred(TargetsOf(page), page.MaxOff(), o)
      modifies this`rootReports
      ensures forall o :: 1 <= o <= page.MaxOff() ==> (HeapOnlyRoot(o) in rootReports <==> BadRoot(page, o))
    {
      var o := 1;
      while o <= page.MaxOff()
        invariant 1 <= o <= page.MaxOff() + 1
        invariant forall i :: 1 <= i <= page.MaxOff() ==> (HeapOnlyRoot(i) in rootReports <==> i < o && BadRoot(page, i))
      {
        PredecessorIsLeast(page, o);
        if lpValid[o] && page.At(o).Normal? && page.At(o).t.status in {Some(Committed), Some(InProgress)} &&
           predecessor[o] == 0 && page.At(o).t.heapOnly
        {
          rootReports := rootReports + [HeapOnlyRoot(o)];
        }
        o := o + 1;
      }
    }
  }
}
