/** The access method's entry points as loops over the atomic steps: blbuild,
    blinsert, blbulkdelete and blgetbitmap when nobody interferes. */
module BloomAccess {
  import opened Optional
  import opened BloomSignature
  import opened BloomPage
  import opened BloomIndex
  import opened BloomRuns
  import opened BloomGuarantees

  lemma {:induction false} RunExtend(s: State, acts: seq<Action>, a: Action)
    requires IsRun(s, acts) && Enabled(After(s, acts), a)
    ensures IsRun(s, acts + [a]) && After(s, acts + [a]) == Apply(After(s, acts), a)
    decreases |acts|
  {
    if acts == [] {
      assert [a][1..] == [];
    } else {
      RunExtend(Apply(s, acts[0]), acts[1..], a);
      assert (acts + [a])[1..] == acts[1..] + [a];
    }
  }

  class Relation {
    var s: State
    ghost var origin: State
    ghost var history: seq<Action>

    /** The relation's state is one a run has led to. */
    ghost predicate Valid()
      reads this
    {
      Inv(s) && IsRun(origin, history) && s == After(origin, history)
    }

    constructor (s: State)
      requires Inv(s)
      ensures Valid() && this.s == s && origin == s && history == []
    {
      this.s := s;
      origin, history := s, [];
    }

    method Take(a: Action)
      requires Valid() && Enabled(s, a)
      modifies this
      ensures Valid() && s == Apply(old(s), a)
      ensures origin == old(origin) && history == old(history) + [a]
    {
      RunExtend(origin, history, a);
      StepInv(s, a);
      s := Apply(s, a);
      history := history + [a];
    }

    /** blinsert: first listed page, then the rest under the metapage lock, then what
        the free-space map offers, then a new page. */
    method Insert(p: Pid, t: Tuple, offers: seq<nat>)
      requires Valid() && ProcOf(s, p).Idle? && s.lock.None?
      modifies this
      ensures Valid() && origin == old(origin) && old(history) <= history
      ensures ProcOf(s, p).Idle? && s.lock.None?
      ensures s.inserted == old(s.inserted) + [t] && s.removed == old(s.removed)
      ensures Stored(s) == old(Stored(s)) + multiset{t}
    {
      ghost var s0 := s;
      TryFirstListed(p, t);
      if ProcOf(s, p).InsertLock? {
        Take(LockMeta(p));
        TryListed(p, t);
        Allocate(p, t, offers);
      }
      Conservation(s0, s, t);
    }

    method TryFirstListed(p: Pid, t: Tuple)
      requires Valid() && ProcOf(s, p).Idle? && s.lock.None?
      modifies this
      ensures Valid() && origin == old(origin) && old(history) <= history
      ensures s.removed == old(s.removed) && s.lock.None?
      ensures if ProcOf(s, p).Idle? then s.inserted == old(s.inserted) + [t]
              else Enabled(s, LockMeta(p)) && ProcOf(s, p).t == t && s.inserted == old(s.inserted)
    {
      BeginAndRead(p, t);
      if ProcOf(s, p).InsertFirst? {
        Take(TryFirst(p));
      }
      if ProcOf(s, p).InsertLock? {
        NeverStuck(s, p);
      }
    }

    method BeginAndRead(p: Pid, t: Tuple)
      requires Valid() && ProcOf(s, p).Idle? && s.lock.None?
      modifies this
      ensures Valid() && origin == old(origin) && old(history) <= history
      ensures s.removed == old(s.removed) && s.inserted == old(s.inserted) && s.lock.None? && p in s.procs
      ensures match ProcOf(s, p)
              case InsertFirst(u, _) => u == t && Enabled(s, TryFirst(p))
              case InsertLock(u, _) => u == t
              case _ => false
    {
      Take(BeginInsert(p, t));
      NeverStuck(s, p);
      Take(ReadMeta(p));
      NeverStuck(s, p);
    }

    method TryListed(p: Pid, t: Tuple)
      requires Valid() && ProcOf(s, p).InsertLoop? && ProcOf(s, p).t == t
      modifies this
      ensures Valid() && origin == old(origin) && old(history) <= history && s.removed == old(s.removed)
      ensures if ProcOf(s, p).InsertLoop?
              then ProcOf(s, p).t == t && s.blocks[0].nEnd <= ProcOf(s, p).nStart && s.inserted == old(s.inserted)
              else ProcOf(s, p).Idle? && s.lock.None? && s.inserted == old(s.inserted) + [t]
    {
      assert ProcOk(s, p);
      while ProcOf(s, p).InsertLoop? && ProcOf(s, p).nStart < s.blocks[0].nEnd
        invariant Valid() && origin == old(origin) && old(history) <= history && s.removed == old(s.removed)
        invariant p in s.procs
        invariant if ProcOf(s, p).InsertLoop?
                  then ProcOf(s, p).t == t && s.inserted == old(s.inserted)
                  else ProcOf(s, p).Idle? && s.lock.None? && s.inserted == old(s.inserted) + [t]
        decreases if ProcOf(s, p).InsertLoop? then s.blocks[0].nEnd - ProcOf(s, p).nStart else -1
      {
        NeverStuck(s, p);
        Take(TryNext(p));
      }
    }

    method Allocate(p: Pid, t: Tuple, offers: seq<nat>)
      requires Valid()
      requires ProcOf(s, p).InsertLoop? ==> ProcOf(s, p).t == t && s.blocks[0].nEnd <= ProcOf(s, p).nStart
      requires !ProcOf(s, p).InsertLoop? ==> ProcOf(s, p).Idle? && s.lock.None?
      modifies this
      ensures Valid() && origin == old(origin) && old(history) <= history && s.removed == old(s.removed)
      ensures ProcOf(s, p).Idle? && s.lock.None?
      ensures s.inserted == if old(ProcOf(s, p).InsertLoop?) then old(s.inserted) + [t] else old(s.inserted)
    {
      if !ProcOf(s, p).InsertLoop? {
        return;
      }
      var k := 0;
      while k < |offers|
        invariant Valid() && origin == old(origin) && old(history) <= history && s.removed == old(s.removed)
        invariant p in s.procs && s.inserted == old(s.inserted)
        invariant ProcOf(s, p).InsertLoop? && ProcOf(s, p).t == t && s.blocks[0].nEnd <= ProcOf(s, p).nStart
      {
        if offers[k] < |s.blocks| {
          Take(Recycle(p, offers[k]));
          if ProcOf(s, p).Idle? {
            return;
          }
        }
        k := k + 1;
      }
      NeverStuck(s, p);
      Take(Extend(p));
    }

    /** blbulkdelete: every page, then the metapage. */
    method BulkDelete(p: Pid, dead: set<Tid>) returns (removed: nat)
      requires Valid() && ProcOf(s, p).Idle? && s.lock.None? && !Vacuuming(s)
      modifies this
      ensures Valid() && origin == old(origin) && old(history) <= history
      ensures s.inserted == old(s.inserted) && old(s.removed) <= s.removed
      ensures forall t :: Stored(s)[t] == if t.heapPtr in dead then 0 else old(Stored(s))[t]
      ensures removed == |s.removed| - |old(s.removed)|
    {
      Take(BeginVacuum(p, dead));
      while ProcOf(s, p).blkno < ProcOf(s, p).npages
        invariant Valid() && origin == old(origin) && old(history) <= history
        invariant s.inserted == old(s.inserted) && s.lock.None?
        invariant p in s.procs && ProcOf(s, p).Vacuum? && VacuumClean(s, p)
        invariant ProcOf(s, p).dead == dead && ProcOf(s, p).insAt == |old(s.inserted)|
        invariant ProcOf(s, p).remAt == |old(s.removed)| && old(s.removed) <= s.removed
        decreases ProcOf(s, p).npages - ProcOf(s, p).blkno
      {
        NeverStuck(s, p);
        StepClean(s, VacuumPage(p), p);
        Take(VacuumPage(p));
      }
      removed := ProcOf(s, p).removedCount;
      assert ProcOk(s, p);
      DeadAreGone(old(s), s, p, dead);
      NeverStuck(s, p);
      StoredMeta(s, Apply(s, VacuumMeta(p)).blocks[0]);
      Take(VacuumMeta(p));
    }

    /** blgetbitmap: every page's matching tuples. */
    method GetBitmap(p: Pid, query: Signature) returns (hits: seq<Tuple>)
      requires Valid() && ProcOf(s, p).Idle?
      modifies this
      ensures Valid() && origin == old(origin) && old(history) <= history
      ensures s.blocks == old(s.blocks)
      ensures forall t :: multiset(hits)[t] == if Matches(t.sign, query) then Stored(s)[t] else 0
    {
      forall t ensures ScanBound(Apply(s, BeginScan(p, query)), p, t) {
        BeginScanBound(s, p, query, t);
      }
      Take(BeginScan(p, query));
      while ProcOf(s, p).blkno < ProcOf(s, p).npages
        invariant Valid() && origin == old(origin) && old(history) <= history
        invariant p in s.procs && s.blocks == old(s.blocks)
        invariant var v := ProcOf(s, p);
                  && v.Scan? && v.query == query && v.base == Stored(s) && v.npages == |s.blocks|
                  && v.insAt == |s.inserted| && v.remAt == |s.removed|
        invariant forall t :: ScanBound(s, p, t)
        decreases ProcOf(s, p).npages - ProcOf(s, p).blkno
      {
        NeverStuck(s, p);
        forall t ensures ScanBound(Apply(s, ScanPage(p)), p, t) {
          ScanPageBound(s, p, t);
        }
        Take(ScanPage(p));
      }
      hits := ProcOf(s, p).hits;
      forall t ensures multiset(hits)[t] == if Matches(t.sign, query) then Stored(s)[t] else 0 {
        ScanEnd(s, p, t);
      }
      NeverStuck(s, p);
      Take(EndScan(p));
    }
  }

  lemma ScanEnd(s: State, p: Pid, t: Tuple)
    requires ProcOf(s, p).Scan? && ScanBound(s, p, t)
    requires var v := ProcOf(s, p);
             v.npages <= v.blkno && v.base == Stored(s) && v.insAt == |s.inserted| && v.remAt == |s.removed|
    ensures multiset(ProcOf(s, p).hits)[t] == if Matches(t.sign, ProcOf(s, p).query) then Stored(s)[t] else 0
  {
    var v := ProcOf(s, p);
    assert s.inserted[v.insAt..] == [] && s.removed[v.remAt..] == [];
    assert StoredIn(s.blocks, v.blkno, v.npages) == multiset{};
  }

  lemma DeadAreGone(s0: State, s: State, p: Pid, dead: set<Tid>)
    requires Inv(s0) && Inv(s) && ProcOf(s, p).Vacuum? && VacuumClean(s, p)
    requires s.inserted == s0.inserted && s0.removed <= s.removed
    requires var v := ProcOf(s, p);
             v.dead == dead && v.npages <= v.blkno && v.insAt == |s0.inserted| && v.remAt == |s0.removed|
    ensures forall t :: Stored(s)[t] == if t.heapPtr in dead then 0 else Stored(s0)[t]
  {
    var since := s.removed[|s0.removed|..];
    assert s.removed == s0.removed + since;
    assert multiset(s.removed) == multiset(s0.removed) + multiset(since);
    forall t ensures Stored(s)[t] == if t.heapPtr in dead then 0 else Stored(s0)[t] {
      assert (Stored(s) + multiset(s.removed))[t] == (Stored(s0) + multiset(s0.removed))[t];
      if t.heapPtr in dead {
        DeadIsGone(s, p, t);
      } else {
        assert t !in since;
      }
    }
  }

  lemma DeadIsGone(s: State, p: Pid, t: Tuple)
    requires Inv(s) && ProcOf(s, p).Vacuum? && VacuumClean(s, p)
    requires var v := ProcOf(s, p); v.npages <= v.blkno && v.insAt == |s.inserted| && t.heapPtr in v.dead
    ensures t !in Stored(s)
  {
    if t in Stored(s) {
      var b := StoredSomewhere(s.blocks, 0, |s.blocks|, t);
      assert false;
    }
  }

  lemma Conservation(s0: State, s: State, t: Tuple)
    requires Inv(s0) && Inv(s) && s.inserted == s0.inserted + [t] && s.removed == s0.removed
    ensures Stored(s) == Stored(s0) + multiset{t}
  {
    InsertedOne(s0, t);
    Exchange(Stored(s), multiset(s.removed), Stored(s0), multiset{t});
  }

  // ----- Building

  /** flushCachedPage on an index nobody else can see: the page goes to a new block. */
  function Flushed(s: State, cached: seq<Tuple>): State {
    s.(blocks := s.blocks + [Data(cached, false)], inserted := s.inserted + cached)
  }

  lemma FlushKeeps(s: State, cached: seq<Tuple>)
    requires Unused(s) && s.lock.None? && cached != []
    requires |cached| * s.size <= BLCKSZ - PAGE_HEADER - PAGE_OPAQUE
    ensures Unused(Flushed(s, cached))
    ensures Stored(Flushed(s, cached)) == Stored(s) + multiset(cached)
  {
    StoredAppend(s.blocks, Data(cached, false), 0);
    assert multiset(s.inserted + cached) == multiset(s.inserted) + multiset(cached);
  }

  /** blbuild: fills one cached page at a time and writes it out when the next tuple
      does not fit. No page written is empty and every heap tuple is stored. */
  method Build(s0: State, heap: seq<Tuple>) returns (s: State, indtuples: nat)
    requires Initial(s0)
    ensures Unused(s) && s.lock.None?
    ensures Stored(s) == multiset(heap) && s.inserted == heap && s.removed == []
    ensures indtuples == |heap|
  {
    InitialInv(s0);
    s := s0;
    var cached: seq<Tuple> := [];
    indtuples := 0;
    while indtuples < |heap|
      invariant 0 <= indtuples <= |heap|
      invariant Unused(s) && s.lock.None? && s.removed == [] && s.size == s0.size
      invariant s.inserted + cached == heap[..indtuples]
      invariant indtuples > 0 ==> cached != []
      invariant |cached| * s.size <= BLCKSZ - PAGE_HEADER - PAGE_OPAQUE
    {
      var t := heap[indtuples];
      assert heap[..indtuples + 1] == s.inserted + cached + [t];
      if HasRoom(|cached|, s.size) {
        RoomIsRoom(|cached|, s.size);
        cached := cached + [t];
      } else {
        FlushKeeps(s, cached);
        s := Flushed(s, cached);
        RoomIsRoom(0, s.size);
        cached := [t];
      }
      indtuples := indtuples + 1;
    }
    assert heap[..|heap|] == heap;
    if cached != [] {
      FlushKeeps(s, cached);
      s := Flushed(s, cached);
    }
    assert Stored(s) == multiset(s.inserted);
  }
}
