/** What users of a Bloom index may rely on while others work on it. */
module BloomGuarantees {
  import opened Optional
  import opened BloomSignature
  import opened BloomPage
  import opened BloomIndex
  import opened BloomRuns

  // ----- What one step can do to the contents

  /** Tuples a step inserts and removes. */
  function NewlyInserted(s: State, a: Action): seq<Tuple>
    requires Enabled(s, a) && |s.inserted| <= |Apply(s, a).inserted|
  {
    Apply(s, a).inserted[|s.inserted|..]
  }

  function NewlyRemoved(s: State, a: Action): seq<Tuple>
    requires Enabled(s, a) && |s.removed| <= |Apply(s, a).removed|
  {
    Apply(s, a).removed[|s.removed|..]
  }

  lemma HistoriesGrow(s: State, a: Action)
    requires Enabled(s, a)
    ensures s.inserted <= Apply(s, a).inserted && s.removed <= Apply(s, a).removed
    ensures |s.blocks| <= |Apply(s, a).blocks|
  {
  }

  /** The bounds that one step keeps on the copies of t stored in [lo, hi). */
  predicate RangeBound(s: State, a: Action, lo: nat, hi: nat, t: Tuple)
    requires Enabled(s, a) && hi <= |s.blocks| <= |Apply(s, a).blocks|
    requires |s.inserted| <= |Apply(s, a).inserted| && |s.removed| <= |Apply(s, a).removed|
  {
    var before, after := StoredIn(s.blocks, lo, hi)[t], StoredIn(Apply(s, a).blocks, lo, hi)[t];
    && before <= after + multiset(NewlyRemoved(s, a))[t]
    && after <= before + multiset(NewlyInserted(s, a))[t]
  }

  lemma PutRange(blocks: seq<Page>, b: nat, u: Tuple, size: nat, lo: nat, hi: nat, t: Tuple)
    requires 1 <= b < |blocks| && hi <= |blocks| && PageOk(blocks[b], size) && HasRoom(0, size)
    requires Reusable(blocks[b]) || Fits(blocks[b], size)
    ensures var before, after := StoredIn(blocks, lo, hi)[t], StoredIn(blocks[b := Added(blocks[b], u)], lo, hi)[t];
            before <= after <= before + multiset([u])[t]
  {
    AddedOk(blocks[b], u, size);
    var pg := Added(blocks[b], u);
    if lo <= b < hi {
      StoredUpdate(blocks, b, pg, lo, hi);
      Exchange(StoredIn(blocks[b := pg], lo, hi), multiset(Items(blocks[b])), StoredIn(blocks, lo, hi), multiset{u});
    } else {
      StoredElsewhere(blocks, b, pg, lo, hi);
    }
  }

  lemma ReleaseRange(s: State, p: Pid, u: Tuple, b: nat, m: Page, lo: nat, hi: nat, t: Tuple)
    requires PagesOk(s) && 1 <= b < |s.blocks| && 1 <= lo && hi <= |s.blocks|
    requires Reusable(s.blocks[b]) || Fits(s.blocks[b], s.size)
    ensures var before, after := StoredIn(s.blocks, lo, hi)[t], StoredIn(Released(s, p, u, b, m).blocks, lo, hi)[t];
            before <= after <= before + multiset([u])[t]
  {
    PutRange(s.blocks, b, u, s.size, lo, hi, t);
    StoredElsewhere(Put(s, p, u, b).blocks, 0, m, lo, hi);
  }

  lemma VacuumRange(s: State, p: Pid, lo: nat, hi: nat, t: Tuple)
    requires Inv(s) && Enabled(s, VacuumPage(p)) && 1 <= lo && hi <= |s.blocks|
    ensures RangeBound(s, VacuumPage(p), lo, hi, t)
  {
    var v := ProcOf(s, p);
    assert ProcOk(s, p);
    var pg := s.blocks[v.blkno];
    var kept := Compacted(pg, v.dead);
    CompactedOk(pg, v.dead, s.size);
    assert NewlyRemoved(s, VacuumPage(p)) == Gone(pg, v.dead);
    if lo <= v.blkno < hi {
      StoredUpdate(s.blocks, v.blkno, kept, lo, hi);
      Exchange(StoredIn(s.blocks, lo, hi), multiset(Items(kept)), StoredIn(s.blocks[v.blkno := kept], lo, hi),
               multiset(Gone(pg, v.dead)));
    } else {
      StoredElsewhere(s.blocks, v.blkno, kept, lo, hi);
    }
  }

  /** One step by anyone loses no more copies of t than it removes, and gains no more
      than it inserts, on any range of data pages. */
  lemma StepRange(s: State, a: Action, lo: nat, hi: nat, t: Tuple)
    requires Inv(s) && Enabled(s, a) && 1 <= lo && hi <= |s.blocks|
    ensures |s.inserted| <= |Apply(s, a).inserted| && |s.removed| <= |Apply(s, a).removed|
    ensures |s.blocks| <= |Apply(s, a).blocks|
    ensures RangeBound(s, a, lo, hi, t)
  {
    HistoriesGrow(s, a);
    var s' := Apply(s, a);
    match a
    case TryFirst(p) =>
      var InsertFirst(u, b) := ProcOf(s, p);
      assert ProcOk(s, p);
      if Fits(s.blocks[b], s.size) {
        PutRange(s.blocks, b, u, s.size, lo, hi, t);
        assert NewlyInserted(s, a) == [u];
      }
    case TryNext(p) => TryNextRange(s, p, lo, hi, t);
    case Recycle(p, b) =>
      if Reusable(s.blocks[b]) {
        ReleaseRange(s, p, ProcOf(s, p).t, b, ListOnly(s.blocks[0], b), lo, hi, t);
        assert NewlyInserted(s, a) == [ProcOf(s, p).t];
      }
    case Extend(p) => ExtendRange(s, p, lo, hi, t);
    case ExtendAndFail => StoredPrefix(s.blocks, New, lo, hi);
    case VacuumPage(p) => VacuumRange(s, p, lo, hi, t);
    case VacuumMeta(p) => StoredElsewhere(s.blocks, 0, s'.blocks[0], lo, hi);
    case _ =>
  }

  lemma TryNextRange(s: State, p: Pid, lo: nat, hi: nat, t: Tuple)
    requires Inv(s) && Enabled(s, TryNext(p)) && 1 <= lo && hi <= |s.blocks|
    ensures RangeBound(s, TryNext(p), lo, hi, t)
  {
    var InsertLoop(u, n) := ProcOf(s, p);
    var m := s.blocks[0];
    assert ProcOk(s, p);
    if Fits(s.blocks[m.notFull[n]], s.size) {
      ReleaseRange(s, p, u, m.notFull[n], m.(nStart := n), lo, hi, t);
      assert NewlyInserted(s, TryNext(p)) == [u];
    }
  }

  lemma ExtendRange(s: State, p: Pid, lo: nat, hi: nat, t: Tuple)
    requires Inv(s) && Enabled(s, Extend(p)) && 1 <= lo && hi <= |s.blocks|
    ensures RangeBound(s, Extend(p), lo, hi, t)
  {
    var longer := s.(blocks := s.blocks + [New]);
    ExtendAndFailInv(s);
    StoredPrefix(s.blocks, New, lo, hi);
    var b := |s.blocks|;
    ReleaseRange(longer, p, ProcOf(s, p).t, b, ListOnly(s.blocks[0], b), lo, hi, t);
    assert NewlyInserted(s, Extend(p)) == [ProcOf(s, p).t];
  }

  // ----- Scans

  lemma {:induction false} HitsCount(items: seq<Tuple>, query: Signature, t: Tuple)
    ensures multiset(Hits(items, query))[t] == if Matches(t.sign, query) then multiset(items)[t] else 0
  {
    if items != [] {
      HitsCount(items[..|items| - 1], query, t);
      assert items == items[..|items| - 1] + [items[|items| - 1]];
    }
  }

  /** Copies of t returned so far, against the copies the index held at the start,
      those removed since and those inserted since. */
  predicate ScanBound(s: State, p: Pid, t: Tuple) {
    var v := ProcOf(s, p);
    v.Scan? ==>
      && v.npages <= |s.blocks| && v.insAt <= |s.inserted| && v.remAt <= |s.removed|
      && var seen, ahead := multiset(v.hits)[t], StoredIn(s.blocks, v.blkno, v.npages)[t];
         if Matches(t.sign, v.query) then
           && v.base[t] <= seen + ahead + multiset(s.removed[v.remAt..])[t]
           && seen + ahead <= v.base[t] + multiset(s.inserted[v.insAt..])[t]
         else seen == 0
  }

  lemma BeginScanBound(s: State, p: Pid, query: Signature, t: Tuple)
    requires Inv(s) && Enabled(s, BeginScan(p, query))
    ensures ScanBound(Apply(s, BeginScan(p, query)), p, t)
  {
    assert Stored(s) == multiset(Items(s.blocks[0])) + StoredIn(s.blocks, 1, |s.blocks|);
  }

  lemma PageHitsCount(pg: Page, size: nat, query: Signature, t: Tuple)
    requires PageOk(pg, size)
    ensures multiset(PageHits(pg, query))[t] == if Matches(t.sign, query) then multiset(Items(pg))[t] else 0
  {
    HitsCount(Items(pg), query, t);
  }

  lemma AppendCount(a: seq<Tuple>, b: seq<Tuple>, t: Tuple)
    ensures multiset(a + b)[t] == multiset(a)[t] + multiset(b)[t]
  {
  }

  lemma StoredFirst(blocks: seq<Page>, lo: nat, hi: nat, t: Tuple)
    requires lo < hi <= |blocks|
    ensures StoredIn(blocks, lo, hi)[t] == multiset(Items(blocks[lo]))[t] + StoredIn(blocks, lo + 1, hi)[t]
  {
  }

  lemma ScanPageBound(s: State, p: Pid, t: Tuple)
    requires Inv(s) && Enabled(s, ScanPage(p)) && ScanBound(s, p, t)
    ensures ScanBound(Apply(s, ScanPage(p)), p, t)
  {
    var v, v' := ProcOf(s, p), ProcOf(Apply(s, ScanPage(p)), p);
    assert ProcOk(s, p);
    var pg := s.blocks[v.blkno];
    PageHitsCount(pg, s.size, v.query, t);
    StoredFirst(s.blocks, v.blkno, v.npages, t);
    AppendCount(v.hits, PageHits(pg, v.query), t);
    assert v' == v.(blkno := v.blkno + 1, hits := v.hits + PageHits(pg, v.query));
  }

  lemma SuffixCount(s: seq<Tuple>, s': seq<Tuple>, at: nat, t: Tuple)
    requires s <= s' && at <= |s|
    ensures multiset(s'[at..])[t] == multiset(s[at..])[t] + multiset(s'[|s|..])[t]
  {
    assert s'[at..] == s[at..] + s'[|s|..];
  }

  lemma OtherStepBound(s: State, a: Action, p: Pid, t: Tuple)
    requires Inv(s) && Enabled(s, a) && ScanBound(s, p, t)
    requires ProcOf(s, p).Scan? && ProcOf(Apply(s, a), p) == ProcOf(s, p)
    ensures ScanBound(Apply(s, a), p, t)
  {
    var v, s' := ProcOf(s, p), Apply(s, a);
    assert ProcOk(s, p);
    StepRange(s, a, v.blkno, v.npages, t);
    HistoriesGrow(s, a);
    SuffixCount(s.removed, s'.removed, v.remAt, t);
    SuffixCount(s.inserted, s'.inserted, v.insAt, t);
  }

  lemma StepScanBound(s: State, a: Action, p: Pid, t: Tuple)
    requires Inv(s) && Enabled(s, a) && ScanBound(s, p, t)
    ensures ScanBound(Apply(s, a), p, t)
  {
    if a == ScanPage(p) {
      ScanPageBound(s, p, t);
    } else if a.BeginScan? && a.p == p {
      BeginScanBound(s, p, a.query, t);
    } else if ProcOf(Apply(s, a), p).Scan? {
      OtherStepBound(s, a, p, t);
    }
  }

  lemma {:induction false} RunScanBound(s: State, acts: seq<Action>, p: Pid, t: Tuple)
    requires Inv(s) && IsRun(s, acts) && ScanBound(s, p, t)
    ensures ScanBound(After(s, acts), p, t)
    decreases |acts|
  {
    if acts != [] {
      StepScanBound(s, acts[0], p, t);
      StepInv(s, acts[0]);
      RunScanBound(Apply(s, acts[0]), acts[1..], p, t);
    }
  }

  /** When a scan ends, under any interleaving: every matching copy that was in the
      index when the scan read its size has been returned unless it was removed
      meanwhile, and nothing was returned more often than it was stored. */
  lemma ScanReturns(s: State, acts: seq<Action>, p: Pid, t: Tuple)
    requires Unused(s) && IsRun(s, acts)
    requires ProcOf(After(s, acts), p).Scan? && ProcOf(After(s, acts), p).blkno >= ProcOf(After(s, acts), p).npages
    ensures var e := After(s, acts);
            var v := ProcOf(e, p);
            && v.insAt <= |e.inserted| && v.remAt <= |e.removed|
            && (Matches(t.sign, v.query) ==>
                  && v.base[t] <= multiset(v.hits)[t] + multiset(e.removed[v.remAt..])[t]
                  && multiset(v.hits)[t] <= v.base[t] + multiset(e.inserted[v.insAt..])[t])
            && (!Matches(t.sign, v.query) ==> t !in v.hits)
  {
    RunScanBound(s, acts, p, t);
    RunInv(s, acts);
    var e := After(s, acts);
    var v := ProcOf(e, p);
    assert ProcOk(e, p);
    assert StoredIn(e.blocks, v.blkno, v.npages) == multiset{};
  }

  /** A row stored once, neither removed nor inserted again while a scan for values
      equal to its own runs, is returned exactly once. */
  lemma RowReturnedOnce(s: State, acts: seq<Action>, p: Pid, t: Tuple,
                        o: Options, h: Hash, row: seq<Option<Value>>, keys: seq<ScanKey>)
    requires Unused(s) && IsRun(s, acts)
    requires ProcOf(After(s, acts), p).Scan? && ProcOf(After(s, acts), p).blkno >= ProcOf(After(s, acts), p).npages
    requires var e := After(s, acts);
             var v := ProcOf(e, p);
             && v.insAt <= |e.inserted| && v.remAt <= |e.removed|
             && v.base[t] == 1 && t !in e.removed[v.remAt..] && t !in e.inserted[v.insAt..]
    requires o.Valid() && |row| == |o.bitSize| && SignatureOf(o, h, row, |row|, t.sign)
    requires var q := ProcOf(After(s, acts), p).query;
             |q| == o.bloomLength && SignedByKeys(o, h, keys, |keys|, q)
    requires Satisfies(row, keys)
    ensures multiset(ProcOf(After(s, acts), p).hits)[t] == 1
  {
    NoFalseNegative(o, h, row, keys, t.sign, ProcOf(After(s, acts), p).query);
    ScanReturns(s, acts, p, t);
  }

  // ----- VACUUM

  /** Pages VACUUM has passed, and pages added since it began, hold no dead tuple
      older than its start; and it has removed only dead ones. */
  predicate VacuumClean(s: State, p: Pid) {
    var v := ProcOf(s, p);
    v.Vacuum? ==>
      && v.insAt <= |s.inserted| && v.remAt <= |s.removed|
      && (forall b, t ::
            (1 <= b < |s.blocks| && (b < v.blkno || v.npages <= b) && t in Items(s.blocks[b]) && t.heapPtr in v.dead) ==>
              t in s.inserted[v.insAt..])
      && (forall t :: t in s.removed[v.remAt..] ==> t.heapPtr in v.dead)
  }

  /** A tuple on a page after a step was there before, or the step inserted it. */
  lemma StepItems(s: State, a: Action, b: nat, t: Tuple)
    requires Inv(s) && Enabled(s, a) && b < |Apply(s, a).blocks| && t in Items(Apply(s, a).blocks[b])
    ensures |s.inserted| <= |Apply(s, a).inserted|
    ensures (b < |s.blocks| && t in Items(s.blocks[b])) || t in NewlyInserted(s, a)
  {
    HistoriesGrow(s, a);
    if a.VacuumPage? {
      var v := ProcOf(s, a.p);
      assert ProcOk(s, a.p);
      CompactedOk(s.blocks[v.blkno], v.dead, s.size);
    } else if a.TryFirst? || a.TryNext? || a.Recycle? || a.Extend? {
      assert Apply(s, a).inserted == s.inserted || NewlyInserted(s, a) == [ProcOf(s, a.p).t];
    }
  }

  lemma VacuumPageClean(s: State, p: Pid)
    requires Inv(s) && Enabled(s, VacuumPage(p)) && VacuumClean(s, p)
    ensures VacuumClean(Apply(s, VacuumPage(p)), p)
  {
    var v, s' := ProcOf(s, p), Apply(s, VacuumPage(p));
    assert ProcOk(s, p);
    CompactedOk(s.blocks[v.blkno], v.dead, s.size);
    forall t | t in s'.removed[v.remAt..] ensures t.heapPtr in v.dead {
      assert s'.removed[v.remAt..] == s.removed[v.remAt..] + Gone(s.blocks[v.blkno], v.dead);
    }
  }

  lemma OtherStepClean(s: State, a: Action, p: Pid)
    requires Inv(s) && Enabled(s, a) && VacuumClean(s, p)
    requires ProcOf(s, p).Vacuum? && ProcOf(Apply(s, a), p) == ProcOf(s, p) && !a.VacuumPage?
    ensures VacuumClean(Apply(s, a), p)
  {
    var v, s' := ProcOf(s, p), Apply(s, a);
    assert ProcOk(s, p);
    HistoriesGrow(s, a);
    assert s'.inserted[v.insAt..] == s.inserted[v.insAt..] + NewlyInserted(s, a);
    forall b, t | 1 <= b < |s'.blocks| && (b < v.blkno || v.npages <= b) && t in Items(s'.blocks[b]) && t.heapPtr in v.dead
      ensures t in s'.inserted[v.insAt..]
    {
      StepItems(s, a, b, t);
    }
    assert s'.removed == s.removed;
  }

  lemma StepClean(s: State, a: Action, p: Pid)
    requires Inv(s) && Enabled(s, a) && VacuumClean(s, p)
    ensures VacuumClean(Apply(s, a), p)
  {
    if a == VacuumPage(p) {
      VacuumPageClean(s, p);
    } else if ProcOf(s, p).Vacuum? && ProcOf(Apply(s, a), p).Vacuum? {
      assert !a.VacuumPage?;
      OtherStepClean(s, a, p);
    }
  }

  lemma {:induction false} RunClean(s: State, acts: seq<Action>, p: Pid)
    requires Inv(s) && IsRun(s, acts) && VacuumClean(s, p)
    ensures VacuumClean(After(s, acts), p)
    decreases |acts|
  {
    if acts != [] {
      StepClean(s, acts[0], p);
      StepInv(s, acts[0]);
      RunClean(Apply(s, acts[0]), acts[1..], p);
    }
  }

  lemma {:induction false} StoredSomewhere(blocks: seq<Page>, lo: nat, hi: nat, t: Tuple) returns (b: nat)
    requires hi <= |blocks| && t in StoredIn(blocks, lo, hi)
    ensures lo <= b < hi && t in Items(blocks[b])
    decreases hi - lo
  {
    if t in Items(blocks[lo]) {
      b := lo;
    } else {
      b := StoredSomewhere(blocks, lo + 1, hi, t);
    }
  }

  /** Of a dead tuple, no more copies are stored than lie ahead of VACUUM and have been
      inserted since it began. */
  predicate VacuumBound(s: State, p: Pid, t: Tuple) {
    var v := ProcOf(s, p);
    v.Vacuum? && t.heapPtr in v.dead ==>
      && v.npages <= |s.blocks| && v.insAt <= |s.inserted|
      && Stored(s)[t] <= StoredIn(s.blocks, v.blkno, v.npages)[t] + multiset(s.inserted[v.insAt..])[t]
  }

  lemma BeginVacuumBound(s: State, p: Pid, dead: set<Tid>, t: Tuple)
    requires Inv(s) && Enabled(s, BeginVacuum(p, dead))
    ensures VacuumBound(Apply(s, BeginVacuum(p, dead)), p, t)
  {
    StoredFirst(s.blocks, 0, |s.blocks|, t);
  }

  /** The books balance before and after a step. */
  lemma StoredChanges(s: State, a: Action, t: Tuple)
    requires Inv(s) && Enabled(s, a)
    ensures |s.inserted| <= |Apply(s, a).inserted| && |s.removed| <= |Apply(s, a).removed|
    ensures Stored(Apply(s, a))[t] + multiset(NewlyRemoved(s, a))[t] == Stored(s)[t] + multiset(NewlyInserted(s, a))[t]
  {
    HistoriesGrow(s, a);
    StepInv(s, a);
    var s' := Apply(s, a);
    SuffixCount(s.inserted, s'.inserted, 0, t);
    SuffixCount(s.removed, s'.removed, 0, t);
    assert s.inserted[0..] == s.inserted && s'.inserted[0..] == s'.inserted;
    assert s.removed[0..] == s.removed && s'.removed[0..] == s'.removed;
    assert multiset(s.inserted)[t] == Stored(s)[t] + multiset(s.removed)[t];
    assert multiset(s'.inserted)[t] == Stored(s')[t] + multiset(s'.removed)[t];
  }

  lemma DeadLeavePage(pg: Page, dead: set<Tid>, size: nat, t: Tuple)
    requires PageOk(pg, size) && t.heapPtr in dead
    ensures multiset(Gone(pg, dead))[t] == multiset(Items(pg))[t]
  {
    CompactedOk(pg, dead, size);
    var kept := Items(Compacted(pg, dead));
    assert t !in kept;
    assert multiset(kept)[t] == 0;
  }

  /** Under VACUUM's step, what is stored and what lies ahead shrink alike. */
  lemma VacuumPageCounts(s: State, p: Pid, t: Tuple)
    requires Inv(s) && Enabled(s, VacuumPage(p))
    ensures var v, s' := ProcOf(s, p), Apply(s, VacuumPage(p));
            var pg := s.blocks[v.blkno];
            && |s'.blocks| == |s.blocks| && s'.inserted == s.inserted
            && Stored(s')[t] + multiset(Gone(pg, v.dead))[t] == Stored(s)[t]
            && StoredIn(s'.blocks, v.blkno + 1, v.npages)[t] + multiset(Items(pg))[t] ==
               StoredIn(s.blocks, v.blkno, v.npages)[t]
  {
    var v, a := ProcOf(s, p), VacuumPage(p);
    StoredChanges(s, a, t);
    assert NewlyRemoved(s, a) == Gone(s.blocks[v.blkno], v.dead) && NewlyInserted(s, a) == [];
    StoredFirst(s.blocks, v.blkno, v.npages, t);
    StoredElsewhere(s.blocks, v.blkno, Compacted(s.blocks[v.blkno], v.dead), v.blkno + 1, v.npages);
  }

  lemma VacuumPageBound(s: State, p: Pid, t: Tuple)
    requires Inv(s) && Enabled(s, VacuumPage(p)) && VacuumBound(s, p, t)
    ensures VacuumBound(Apply(s, VacuumPage(p)), p, t)
  {
    var v := ProcOf(s, p);
    assert ProcOk(s, p);
    VacuumPageCounts(s, p, t);
    if t.heapPtr in v.dead {
      DeadLeavePage(s.blocks[v.blkno], v.dead, s.size, t);
    }
  }

  lemma OtherStepVacuumBound(s: State, a: Action, p: Pid, t: Tuple)
    requires Inv(s) && Enabled(s, a) && VacuumBound(s, p, t) && !a.VacuumPage?
    requires ProcOf(s, p).Vacuum? && ProcOf(Apply(s, a), p) == ProcOf(s, p)
    ensures VacuumBound(Apply(s, a), p, t)
  {
    var v, s' := ProcOf(s, p), Apply(s, a);
    assert ProcOk(s, p);
    StepRange(s, a, v.blkno, v.npages, t);
    StoredChanges(s, a, t);
    HistoriesGrow(s, a);
    SuffixCount(s.inserted, s'.inserted, v.insAt, t);
    assert NewlyRemoved(s, a) == [];
  }

  lemma StepVacuumBound(s: State, a: Action, p: Pid, t: Tuple)
    requires Inv(s) && Enabled(s, a) && VacuumBound(s, p, t)
    ensures VacuumBound(Apply(s, a), p, t)
  {
    if a == VacuumPage(p) {
      VacuumPageBound(s, p, t);
    } else if a.BeginVacuum? && a.p == p {
      BeginVacuumBound(s, p, a.dead, t);
    } else if ProcOf(Apply(s, a), p).Vacuum? {
      assert !a.VacuumPage?;
      OtherStepVacuumBound(s, a, p, t);
    }
  }

  lemma {:induction false} RunVacuumBound(s: State, acts: seq<Action>, p: Pid, t: Tuple)
    requires Inv(s) && IsRun(s, acts) && VacuumBound(s, p, t)
    ensures VacuumBound(After(s, acts), p, t)
    decreases |acts|
  {
    if acts != [] {
      StepVacuumBound(s, acts[0], p, t);
      StepInv(s, acts[0]);
      RunVacuumBound(Apply(s, acts[0]), acts[1..], p, t);
    }
  }

  /** When VACUUM has passed its last page, whatever others did meanwhile: of a dead tuple, no
      more copies are stored than were inserted after VACUUM began, every tuple removed was
      dead, and tuples_removed is the number removed. */
  lemma VacuumCompletes(s: State, acts: seq<Action>, p: Pid, t: Tuple)
    requires Unused(s) && IsRun(s, acts)
    requires ProcOf(After(s, acts), p).Vacuum? && ProcOf(After(s, acts), p).blkno >= ProcOf(After(s, acts), p).npages
    ensures var e := After(s, acts);
            var v := ProcOf(e, p);
            && v.insAt <= |e.inserted| && v.remAt <= |e.removed|
            && (t.heapPtr in v.dead ==> Stored(e)[t] <= multiset(e.inserted[v.insAt..])[t])
            && (t in e.removed[v.remAt..] ==> t.heapPtr in v.dead)
            && v.removedCount == |e.removed[v.remAt..]|
  {
    RunClean(s, acts, p);
    RunVacuumBound(s, acts, p, t);
    RunInv(s, acts);
    var e := After(s, acts);
    assert ProcOk(e, p);
    assert StoredIn(e.blocks, ProcOf(e, p).blkno, ProcOf(e, p).npages) == multiset{};
  }

  // ----- Bounds and progress

  /** No process ever reads outside an array or a block outside the file: wherever a
      process stands, its next step is enabled, unless it waits for the metapage. */
  lemma NeverStuck(s: State, p: Pid)
    requires Inv(s) && p in s.procs
    ensures match s.procs[p]
            case Idle => true
            case InsertRead(_) => s.lock.None? ==> Enabled(s, ReadMeta(p))
            case InsertFirst(_, _) => Enabled(s, TryFirst(p))
            case InsertLock(_, _) => s.lock.None? ==> Enabled(s, LockMeta(p))
            case InsertLoop(_, n) => if n < s.blocks[0].nEnd then Enabled(s, TryNext(p)) else Enabled(s, Extend(p))
            case Vacuum(_, b, np, _, _, _, _) =>
              if b < np then Enabled(s, VacuumPage(p)) else s.lock.None? ==> Enabled(s, VacuumMeta(p))
            case Scan(_, b, np, _, _, _, _) => if b < np then Enabled(s, ScanPage(p)) else Enabled(s, EndScan(p))
  {
    assert ProcOk(s, p);
  }

  /** Reinitialising a page that a stale list entry or the free-space map led to
      drops nothing: such a page holds no tuple. */
  lemma ReinitialisingDropsNothing(s: State, b: nat)
    requires Inv(s) && b < |s.blocks| && Reusable(s.blocks[b])
    ensures b != 0 && Items(s.blocks[b]) == [] == Items(Prepared(s.blocks[b]))
  {
  }
}
