/** What every step of every run of a Bloom index keeps: well-formed pages, processes that
    stay within them, and books that balance: inserted is stored or removed. */
module BloomRuns {
  import opened Optional
  import opened BloomSignature
  import opened BloomPage
  import opened BloomIndex

  // ----- Contents under page updates

  lemma {:induction false} StoredElsewhere(blocks: seq<Page>, b: nat, pg: Page, lo: nat, hi: nat)
    requires b < |blocks| && hi <= |blocks| && !(lo <= b < hi)
    ensures StoredIn(blocks[b := pg], lo, hi) == StoredIn(blocks, lo, hi)
    decreases hi - lo
  {
    if lo < hi {
      var up := blocks[b := pg];
      StoredElsewhere(blocks, b, pg, lo + 1, hi);
      assert up[lo] == blocks[lo];
    }
  }

  lemma {:induction false} StoredUpdate(blocks: seq<Page>, b: nat, pg: Page, lo: nat, hi: nat)
    requires lo <= b < hi <= |blocks|
    ensures StoredIn(blocks[b := pg], lo, hi) + multiset(Items(blocks[b])) ==
            StoredIn(blocks, lo, hi) + multiset(Items(pg))
    decreases hi - lo
  {
    var up := blocks[b := pg];
    var before, after := multiset(Items(blocks[b])), multiset(Items(pg));
    if lo == b {
      StoredElsewhere(blocks, b, pg, lo + 1, hi);
      Swap(after, StoredIn(blocks, lo + 1, hi), before);
    } else {
      StoredUpdate(blocks, b, pg, lo + 1, hi);
      Carry(multiset(Items(blocks[lo])), StoredIn(up, lo + 1, hi), before, StoredIn(blocks, lo + 1, hi), after);
    }
  }

  lemma Swap<T>(a: multiset<T>, b: multiset<T>, c: multiset<T>)
    ensures (a + b) + c == (c + b) + a
  {
  }

  lemma Carry<T>(a: multiset<T>, b: multiset<T>, c: multiset<T>, d: multiset<T>, e: multiset<T>)
    requires b + c == d + e
    ensures (a + b) + c == (a + d) + e
  {
    assert (a + b) + c == a + (b + c);
    assert (a + d) + e == a + (d + e);
  }

  lemma {:induction false} StoredPrefix(blocks: seq<Page>, pg: Page, lo: nat, hi: nat)
    requires hi <= |blocks|
    ensures StoredIn(blocks + [pg], lo, hi) == StoredIn(blocks, lo, hi)
    decreases hi - lo
  {
    if lo < hi {
      StoredPrefix(blocks, pg, lo + 1, hi);
    }
  }

  lemma {:induction false} StoredAppend(blocks: seq<Page>, pg: Page, lo: nat)
    requires lo <= |blocks|
    ensures StoredIn(blocks + [pg], lo, |blocks| + 1) == StoredIn(blocks, lo, |blocks|) + multiset(Items(pg))
    decreases |blocks| - lo
  {
    if lo < |blocks| {
      StoredAppend(blocks, pg, lo + 1);
    } else {
      assert StoredIn(blocks + [pg], lo + 1, |blocks| + 1) == multiset{};
    }
  }

  // ----- The run invariant

  predicate PageOk(pg: Page, size: nat) {
    || pg.New?
    || (pg.Data? && (pg.deleted <==> pg.items == []) && |pg.items| * size <= BLCKSZ - PAGE_HEADER - PAGE_OPAQUE)
  }

  predicate MetaOk(m: Page, npages: nat) {
    && m.Meta?
    && m.nStart <= m.nEnd <= META_BLOCKS == |m.notFull|
    && forall i :: 0 <= i < m.nEnd ==> 1 <= m.notFull[i] < npages
  }

  predicate ProcOk(s: State, p: Pid) {
    && |s.blocks| > 0 && s.blocks[0].Meta?
    && match ProcOf(s, p)
       case Idle => true
       case InsertRead(_) => true
       case InsertFirst(_, b) => 1 <= b < |s.blocks|
       case InsertLock(_, tried) => tried < |s.blocks|
       case InsertLoop(_, n) => s.lock == Some(p) && s.blocks[0].nStart <= n <= s.blocks[0].nEnd
       case Vacuum(_, b, np, found, count, insAt, remAt) =>
         && 1 <= b <= np <= |s.blocks|
         && |found| <= META_BLOCKS
         && (forall i :: 0 <= i < |found| ==> 1 <= found[i] < b)
         && insAt <= |s.inserted| && remAt <= |s.removed| && count == |s.removed| - remAt
       case Scan(_, b, np, _, _, insAt, remAt) =>
         1 <= b <= np <= |s.blocks| && insAt <= |s.inserted| && remAt <= |s.removed|
  }

  predicate PagesOk(s: State) {
    && 0 < s.size && HasRoom(0, s.size)
    && |s.blocks| > 0
    && MetaOk(s.blocks[0], |s.blocks|)
    && forall b :: 1 <= b < |s.blocks| ==> PageOk(s.blocks[b], s.size)
  }

  predicate OneVacuum(s: State) {
    forall p, q :: p in s.procs && q in s.procs && s.procs[p].Vacuum? && s.procs[q].Vacuum? ==> p == q
  }

  /** Holds in every reachable state. */
  predicate Inv(s: State) {
    && PagesOk(s)
    && (forall p :: p in s.procs ==> ProcOk(s, p))
    && (s.lock.Some? ==> ProcOf(s, s.lock.value).InsertLoop?)
    && OneVacuum(s)
    && multiset(s.inserted) == Stored(s) + multiset(s.removed)
  }

  /** An index, new or built, that nobody is using. */
  predicate Unused(s: State) {
    Inv(s) && s.procs == map[]
  }

  lemma InitialInv(s: State)
    requires Initial(s)
    ensures Unused(s)
  {
    assert StoredIn(s.blocks, 0, 1) == multiset{} + StoredIn(s.blocks, 1, 1);
  }

  // ----- Pages

  lemma RoomIsRoom(n: nat, size: nat)
    requires HasRoom(n, size)
    ensures (n + 1) * size <= BLCKSZ - PAGE_HEADER - PAGE_OPAQUE
  {
  }

  lemma AddedOk(pg: Page, t: Tuple, size: nat)
    requires PageOk(pg, size) && HasRoom(0, size) && (Reusable(pg) || Fits(pg, size))
    ensures PageOk(Added(pg, t), size)
    ensures multiset(Items(Added(pg, t))) == multiset(Items(pg)) + multiset{t}
  {
    RoomIsRoom(|Items(Prepared(pg))|, size);
    assert Items(Prepared(pg)) == Items(pg);
  }

  lemma CompactedOk(pg: Page, dead: set<Tid>, size: nat)
    requires PageOk(pg, size)
    ensures PageOk(Compacted(pg, dead), size)
    ensures multiset(Items(pg)) == multiset(Items(Compacted(pg, dead))) + multiset(Gone(pg, dead))
    ensures forall t :: t in Items(Compacted(pg, dead)) ==> t in Items(pg) && t.heapPtr !in dead
    ensures forall t :: t in Gone(pg, dead) ==> t in Items(pg) && t.heapPtr in dead
  {
    if pg.Data? && !pg.deleted {
      var kept := Survivors(pg.items, dead);
      CompactionCounts(pg.items, dead);
      CompactionConserves(pg.items, dead);
      forall t ensures t in kept <==> t in pg.items && t.heapPtr !in dead
               ensures t in Dropped(pg.items, dead) <==> t in pg.items && t.heapPtr in dead {
        CompactionSeparates(pg.items, dead, t);
      }
      if |kept| == |pg.items| {
        NothingDropped(pg.items, dead);
      } else {
        Shrinks(|kept|, |pg.items|, size);
      }
    }
  }

  lemma Shrinks(a: nat, b: nat, size: nat)
    requires a <= b
    ensures a * size <= b * size
  {
  }

  // ----- Steps keep the invariant

  /** Only process p moved; the metapage and its lock are p's to change. */
  predicate StepOf(s: State, s': State, p: Pid) {
    && |s.blocks| > 0 && |s.blocks| <= |s'.blocks| && s'.blocks[0].Meta?
    && (forall q :: q in s'.procs && q != p ==> q in s.procs && s'.procs[q] == s.procs[q])
    && |s.inserted| <= |s'.inserted|
    && (s'.removed == s.removed || (p in s.procs && s.procs[p].Vacuum? && |s.removed| <= |s'.removed|))
    && ((s'.lock == s.lock && s'.blocks[0] == s.blocks[0]) || s.lock.None? || s.lock == Some(p))
  }

  lemma OthersOk(s: State, s': State, p: Pid)
    requires Inv(s) && StepOf(s, s', p)
    ensures forall q :: q in s'.procs && q != p ==> ProcOk(s', q)
  {
    forall q | q in s'.procs && q != p ensures ProcOk(s', q) {
      assert ProcOk(s, q);
      assert ProcOf(s', q) == ProcOf(s, q);
    }
  }

  lemma StoredPut(s: State, p: Pid, t: Tuple, b: nat)
    requires PagesOk(s) && 1 <= b < |s.blocks|
    requires Reusable(s.blocks[b]) || Fits(s.blocks[b], s.size)
    ensures Stored(Put(s, p, t, b)) == Stored(s) + multiset{t}
    ensures PagesOk(Put(s, p, t, b))
  {
    AddedOk(s.blocks[b], t, s.size);
    StoredUpdate(s.blocks, b, Added(s.blocks[b], t), 0, |s.blocks|);
    Exchange(Stored(Put(s, p, t, b)), multiset(Items(s.blocks[b])), Stored(s), multiset{t});
  }

  lemma Exchange<T>(a: multiset<T>, b: multiset<T>, c: multiset<T>, d: multiset<T>)
    requires a + b == c + (b + d)
    ensures a == c + d
  {
    forall x ensures a[x] == (c + d)[x] {
      assert (a + b)[x] == (c + (b + d))[x];
    }
  }

  /** Rewriting the metapage moves no tuple. */
  lemma StoredMeta(s: State, m: Page)
    requires |s.blocks| > 0 && s.blocks[0].Meta? && m.Meta?
    ensures StoredIn(s.blocks[0 := m], 0, |s.blocks|) == Stored(s)
  {
    StoredUpdate(s.blocks, 0, m, 0, |s.blocks|);
    var none := multiset(Items(m));
    assert none == multiset{} == multiset(Items(s.blocks[0]));
    Exchange(StoredIn(s.blocks[0 := m], 0, |s.blocks|), none, Stored(s), none);
  }

  lemma InsertedOne(s: State, t: Tuple)
    ensures multiset(s.inserted + [t]) == multiset(s.inserted) + multiset{t}
  {
  }

  /** A step that changes nothing but its own process. */
  lemma LocalInv(s: State, p: Pid, v: Proc)
    requires Inv(s) && !ProcOf(s, p).InsertLoop?
    requires ProcOk(s.(procs := s.procs[p := v]), p)
    requires v.Vacuum? && !ProcOf(s, p).Vacuum? ==> !Vacuuming(s)
    ensures Inv(s.(procs := s.procs[p := v]))
  {
    OthersOk(s, s.(procs := s.procs[p := v]), p);
  }

  lemma TryFirstInv(s: State, p: Pid)
    requires Inv(s) && Enabled(s, TryFirst(p))
    ensures Inv(Apply(s, TryFirst(p)))
  {
    var InsertFirst(t, b) := ProcOf(s, p);
    assert ProcOk(s, p);
    if Fits(s.blocks[b], s.size) {
      StoredPut(s, p, t, b);
      InsertedOne(s, t);
      OthersOk(s, Put(s, p, t, b), p);
    } else {
      LocalInv(s, p, InsertLock(t, b));
    }
  }

  /** A holder of the metapage stores its tuple, rewrites the metapage and lets go. */
  function Released(s: State, p: Pid, t: Tuple, b: nat, m: Page): State
    requires b < |s.blocks|
  {
    var r := Put(s, p, t, b);
    r.(blocks := r.blocks[0 := m], lock := None)
  }

  lemma ReleasedStored(s: State, p: Pid, t: Tuple, b: nat, m: Page)
    requires PagesOk(s) && 1 <= b < |s.blocks| && MetaOk(m, |s.blocks|)
    requires Reusable(s.blocks[b]) || Fits(s.blocks[b], s.size)
    ensures PagesOk(Released(s, p, t, b, m))
    ensures Stored(Released(s, p, t, b, m)) == Stored(s) + multiset{t}
  {
    StoredPut(s, p, t, b);
    StoredMeta(Put(s, p, t, b), m);
  }

  lemma PutAndRelease(s: State, p: Pid, t: Tuple, b: nat, m: Page)
    requires Inv(s) && ProcOf(s, p).InsertLoop? && 1 <= b < |s.blocks|
    requires Reusable(s.blocks[b]) || Fits(s.blocks[b], s.size)
    requires MetaOk(m, |s.blocks|)
    ensures Inv(Released(s, p, t, b, m))
  {
    assert ProcOk(s, p);
    ReleasedStored(s, p, t, b, m);
    InsertedOne(s, t);
    OthersOk(s, Released(s, p, t, b, m), p);
  }

  lemma TryNextInv(s: State, p: Pid)
    requires Inv(s) && Enabled(s, TryNext(p))
    ensures Inv(Apply(s, TryNext(p)))
  {
    var InsertLoop(t, n) := ProcOf(s, p);
    var m := s.blocks[0];
    assert ProcOk(s, p);
    if Fits(s.blocks[m.notFull[n]], s.size) {
      PutAndRelease(s, p, t, m.notFull[n], m.(nStart := n));
    } else {
      OthersOk(s, Apply(s, TryNext(p)), p);
    }
  }

  lemma RecycleInv(s: State, p: Pid, b: nat)
    requires Inv(s) && Enabled(s, Recycle(p, b))
    ensures Inv(Apply(s, Recycle(p, b)))
  {
    if Reusable(s.blocks[b]) {
      PutAndRelease(s, p, ProcOf(s, p).t, b, ListOnly(s.blocks[0], b));
    }
  }

  lemma ExtendAndFailInv(s: State)
    requires Inv(s)
    ensures Inv(s.(blocks := s.blocks + [New]))
  {
    var s' := s.(blocks := s.blocks + [New]);
    StoredAppend(s.blocks, New, 0);
    forall q | q in s'.procs ensures ProcOk(s', q) {
      assert ProcOk(s, q);
      assert ProcOf(s', q) == ProcOf(s, q);
    }
  }

  lemma ExtendInv(s: State, p: Pid)
    requires Inv(s) && Enabled(s, Extend(p))
    ensures Inv(Apply(s, Extend(p)))
  {
    var longer := s.(blocks := s.blocks + [New]);
    ExtendAndFailInv(s);
    PutAndRelease(longer, p, ProcOf(s, p).t, |s.blocks|, ListOnly(s.blocks[0], |s.blocks|));
  }

  lemma LockMetaInv(s: State, p: Pid)
    requires Inv(s) && Enabled(s, LockMeta(p))
    ensures Inv(Apply(s, LockMeta(p)))
  {
    OthersOk(s, Apply(s, LockMeta(p)), p);
  }

  lemma VacuumPageStored(s: State, p: Pid)
    requires Inv(s) && Enabled(s, VacuumPage(p))
    ensures var s' := Apply(s, VacuumPage(p));
            PagesOk(s') && multiset(s'.inserted) == Stored(s') + multiset(s'.removed)
  {
    var s' := Apply(s, VacuumPage(p));
    var v := ProcOf(s, p);
    var pg := s.blocks[v.blkno];
    assert ProcOk(s, p);
    CompactedOk(pg, v.dead, s.size);
    StoredUpdate(s.blocks, v.blkno, Compacted(pg, v.dead), 0, |s.blocks|);
    var gone := multiset(Gone(pg, v.dead));
    Exchange(Stored(s), multiset(Items(Compacted(pg, v.dead))), Stored(s'), gone);
    assert multiset(s'.removed) == multiset(s.removed) + gone;
  }

  lemma VacuumPageInv(s: State, p: Pid)
    requires Inv(s) && Enabled(s, VacuumPage(p))
    ensures Inv(Apply(s, VacuumPage(p)))
  {
    VacuumPageStored(s, p);
    VacuumPageOwn(s, p);
    OthersOk(s, Apply(s, VacuumPage(p)), p);
  }

  lemma VacuumPageOwn(s: State, p: Pid)
    requires Inv(s) && Enabled(s, VacuumPage(p))
    ensures ProcOk(Apply(s, VacuumPage(p)), p)
  {
    assert ProcOk(s, p);
  }

  lemma VacuumMetaInv(s: State, p: Pid)
    requires Inv(s) && Enabled(s, VacuumMeta(p))
    ensures Inv(Apply(s, VacuumMeta(p)))
  {
    var s' := Apply(s, VacuumMeta(p));
    assert ProcOk(s, p);
    StoredMeta(s, s'.blocks[0]);
    OthersOk(s, s', p);
  }

  lemma QuietInv(s: State, a: Action)
    requires Inv(s) && Enabled(s, a)
    requires a.BeginInsert? || a.ReadMeta? || a.BeginVacuum? || a.BeginScan? || a.ScanPage? || a.EndScan?
    ensures Inv(Apply(s, a))
  {
    if a.p in s.procs {
      assert ProcOk(s, a.p);
    }
    LocalInv(s, a.p, Apply(s, a).procs[a.p]);
  }

  /** Every step keeps the invariant. */
  lemma StepInv(s: State, a: Action)
    requires Inv(s) && Enabled(s, a)
    ensures Inv(Apply(s, a))
  {
    match a
    case TryFirst(p) => TryFirstInv(s, p);
    case LockMeta(p) => LockMetaInv(s, p);
    case TryNext(p) => TryNextInv(s, p);
    case Recycle(p, b) => RecycleInv(s, p, b);
    case Extend(p) => ExtendInv(s, p);
    case ExtendAndFail => ExtendAndFailInv(s);
    case VacuumPage(p) => VacuumPageInv(s, p);
    case VacuumMeta(p) => VacuumMetaInv(s, p);
    case _ => QuietInv(s, a);
  }

  /** Nothing is lost and nothing comes back, in any run by any number of processes. */
  lemma {:induction false} RunInv(s: State, acts: seq<Action>)
    requires Inv(s) && IsRun(s, acts)
    ensures Inv(After(s, acts))
    decreases |acts|
  {
    if acts != [] {
      StepInv(s, acts[0]);
      RunInv(Apply(s, acts[0]), acts[1..]);
    }
  }
}
