/** The shared state of a Bloom index and the atomic steps of its users.

    Inserters, scanners and VACUUM interleave at page locks: a step is what one of
    them does under one lock (contrib/bloom/blinsert.c, blvacuum.c, blscan.c).
    GenericXLogFinish applies a step's page images together; GenericXLogAbort leaves
    the pages as they were. The free-space map is not trusted: it may offer any block. */
module BloomIndex {
  import opened Optional
  import opened BloomSignature
  import opened BloomPage

  /** BloomMetaBlockN: block numbers that fit on the metapage. */
  const META_BLOCKS := 2004

  /** Block 0 is the metapage; a page the file was extended by is New until written. */
  datatype Page =
    | New
    | Meta(nStart: nat, nEnd: nat, notFull: seq<nat>)
    | Data(items: seq<Tuple>, deleted: bool)

  type Pid = nat

  datatype Proc =
    | Idle
      // blinsert, before it reads the metapage
    | InsertRead(t: Tuple)
      // blinsert, metapage unlocked, about to try the first listed page
    | InsertFirst(t: Tuple, blkno: nat)
      // blinsert, waiting for the exclusive metapage lock; tried is 0 if no page was
    | InsertLock(t: Tuple, tried: nat)
      // blinsert, holding the metapage, next entry of notFull to try
    | InsertLoop(t: Tuple, nStart: nat)
      // blbulkdelete; insAt and remAt are the lengths of the histories at its start
    | Vacuum(dead: set<Tid>, blkno: nat, npages: nat, found: seq<nat>, removedCount: nat, insAt: nat, remAt: nat)
      // blgetbitmap; base is what the index held when it read npages
    | Scan(query: Signature, blkno: nat, npages: nat, hits: seq<Tuple>,
           base: multiset<Tuple>, insAt: nat, remAt: nat)

  /** inserted and removed are histories: they record steps and steer none. */
  datatype State = State(
    size: nat,
    blocks: seq<Page>,
    lock: Option<Pid>,
    procs: map<Pid, Proc>,
    inserted: seq<Tuple>,
    removed: seq<Tuple>)

  datatype Action =
    | BeginInsert(p: Pid, t: Tuple)
    | ReadMeta(p: Pid)
    | TryFirst(p: Pid)
    | LockMeta(p: Pid)
    | TryNext(p: Pid)
    | Recycle(p: Pid, blkno: nat)
    | Extend(p: Pid)
    | ExtendAndFail
    | BeginVacuum(p: Pid, dead: set<Tid>)
    | VacuumPage(p: Pid)
    | VacuumMeta(p: Pid)
    | BeginScan(p: Pid, query: Signature)
    | ScanPage(p: Pid)
    | EndScan(p: Pid)

  // ----- Contents

  function Items(pg: Page): seq<Tuple> {
    if pg.Data? then pg.items else []
  }

  /** Every tuple on blocks [lo, hi). */
  function StoredIn(blocks: seq<Page>, lo: nat, hi: nat): multiset<Tuple>
    requires hi <= |blocks|
    decreases hi - lo
  {
    if lo >= hi then multiset{} else multiset(Items(blocks[lo])) + StoredIn(blocks, lo + 1, hi)
  }

  function Stored(s: State): multiset<Tuple> {
    StoredIn(s.blocks, 0, |s.blocks|)
  }

  // ----- Steps

  predicate Reusable(pg: Page) {
    pg.New? || (pg.Data? && pg.deleted)
  }

  /** The page after BloomInitPage where the code calls it. */
  function Prepared(pg: Page): Page {
    if Reusable(pg) then Data([], false) else pg
  }

  /** BloomPageAddItem succeeds on the (possibly reinitialised) page. */
  predicate Fits(pg: Page, size: nat) {
    HasRoom(|Items(Prepared(pg))|, size)
  }

  function Added(pg: Page, t: Tuple): Page {
    Data(Items(Prepared(pg)) + [t], false)
  }

  /** What blbulkdelete leaves on a page. */
  function Compacted(pg: Page, dead: set<Tid>): Page {
    if !pg.Data? || pg.deleted then pg
    else
      var kept := Survivors(pg.items, dead);
      if |kept| == |pg.items| then pg else Data(kept, kept == [])
  }

  function Gone(pg: Page, dead: set<Tid>): seq<Tuple> {
    if !pg.Data? || pg.deleted then [] else Dropped(pg.items, dead)
  }

  /** blbulkdelete lists a page that keeps tuples and has room for another. */
  predicate Listable(pg: Page, size: nat) {
    pg.Data? && !pg.deleted && pg.items != [] && HasRoom(|pg.items|, size)
  }

  /** The tuples of a page that blgetbitmap returns. */
  function Hits(items: seq<Tuple>, query: Signature): seq<Tuple> {
    if items == [] then []
    else
      var rest := Hits(items[..|items| - 1], query);
      var last := items[|items| - 1];
      if Matches(last.sign, query) then rest + [last] else rest
  }

  function PageHits(pg: Page, query: Signature): seq<Tuple> {
    if pg.Data? && !pg.deleted then Hits(pg.items, query) else []
  }

  function ProcOf(s: State, p: Pid): Proc {
    if p in s.procs then s.procs[p] else Idle
  }

  predicate Vacuuming(s: State) {
    exists p :: p in s.procs && s.procs[p].Vacuum?
  }

  predicate Enabled(s: State, a: Action) {
    && |s.blocks| > 0 && s.blocks[0].Meta?
    && var m := s.blocks[0];
       match a
       case BeginInsert(p, t) => ProcOf(s, p).Idle?
       case ReadMeta(p) =>
         ProcOf(s, p).InsertRead? && s.lock.None? && (m.nEnd > m.nStart ==> m.nStart < |m.notFull|)
       case TryFirst(p) => ProcOf(s, p).InsertFirst? && ProcOf(s, p).blkno < |s.blocks|
       case LockMeta(p) =>
         ProcOf(s, p).InsertLock? && s.lock.None? && (m.nStart < m.nEnd ==> m.nStart < |m.notFull|)
       case TryNext(p) =>
         && ProcOf(s, p).InsertLoop?
         && ProcOf(s, p).nStart < m.nEnd <= |m.notFull|
         && m.notFull[ProcOf(s, p).nStart] < |s.blocks|
       case Recycle(p, b) =>
         ProcOf(s, p).InsertLoop? && ProcOf(s, p).nStart >= m.nEnd && b < |s.blocks| && 0 < |m.notFull|
       case Extend(p) => ProcOf(s, p).InsertLoop? && ProcOf(s, p).nStart >= m.nEnd && 0 < |m.notFull|
       case ExtendAndFail => true
       case BeginVacuum(p, dead) => ProcOf(s, p).Idle? && !Vacuuming(s)
       case VacuumPage(p) =>
         ProcOf(s, p).Vacuum? && ProcOf(s, p).blkno < ProcOf(s, p).npages <= |s.blocks|
       case VacuumMeta(p) =>
         && ProcOf(s, p).Vacuum? && ProcOf(s, p).blkno >= ProcOf(s, p).npages
         && s.lock.None? && |ProcOf(s, p).found| <= |m.notFull|
       case BeginScan(p, q) => ProcOf(s, p).Idle?
       case ScanPage(p) => ProcOf(s, p).Scan? && ProcOf(s, p).blkno < ProcOf(s, p).npages <= |s.blocks|
       case EndScan(p) => ProcOf(s, p).Scan? && ProcOf(s, p).blkno >= ProcOf(s, p).npages
  }

  /** One inserted tuple, placed on block b. */
  function Put(s: State, p: Pid, t: Tuple, b: nat): State
    requires b < |s.blocks|
  {
    s.(blocks := s.blocks[b := Added(s.blocks[b], t)], procs := s.procs[p := Idle], inserted := s.inserted + [t])
  }

  /** The metapage after a fresh page b took the tuple. */
  function ListOnly(m: Page, b: nat): Page
    requires m.Meta? && 0 < |m.notFull|
  {
    Meta(0, 1, m.notFull[0 := b])
  }

  function Apply(s: State, a: Action): State
    requires Enabled(s, a)
  {
    var m := s.blocks[0];
    match a
    case BeginInsert(p, t) => s.(procs := s.procs[p := InsertRead(t)])
    case ReadMeta(p) =>
      var t := ProcOf(s, p).t;
      s.(procs := s.procs[p := if m.nEnd > m.nStart then InsertFirst(t, m.notFull[m.nStart]) else InsertLock(t, 0)])
    case TryFirst(p) =>
      var InsertFirst(t, b) := ProcOf(s, p);
      if Fits(s.blocks[b], s.size) then Put(s, p, t, b) else s.(procs := s.procs[p := InsertLock(t, b)])
    case LockMeta(p) =>
      var InsertLock(t, tried) := ProcOf(s, p);
      var n := if m.nStart < m.nEnd && tried == m.notFull[m.nStart] then m.nStart + 1 else m.nStart;
      s.(lock := Some(p), procs := s.procs[p := InsertLoop(t, n)])
    case TryNext(p) =>
      var InsertLoop(t, n) := ProcOf(s, p);
      var b := m.notFull[n];
      if Fits(s.blocks[b], s.size) then
        var r := Put(s, p, t, b);
        r.(blocks := r.blocks[0 := m.(nStart := n)], lock := None)
      else s.(procs := s.procs[p := InsertLoop(t, n + 1)])
    case Recycle(p, b) =>
      if Reusable(s.blocks[b]) then
        var r := Put(s, p, ProcOf(s, p).t, b);
        r.(blocks := r.blocks[0 := ListOnly(m, b)], lock := None)
      else s
    case Extend(p) =>
      var b := |s.blocks|;
      var r := Put(s.(blocks := s.blocks + [New]), p, ProcOf(s, p).t, b);
      r.(blocks := r.blocks[0 := ListOnly(m, b)], lock := None)
    case ExtendAndFail => s.(blocks := s.blocks + [New])
    case BeginVacuum(p, dead) =>
      s.(procs := s.procs[p := Vacuum(dead, 1, |s.blocks|, [], 0, |s.inserted|, |s.removed|)])
    case VacuumPage(p) =>
      var v := ProcOf(s, p);
      var pg := Compacted(s.blocks[v.blkno], v.dead);
      var gone := Gone(s.blocks[v.blkno], v.dead);
      var found := if Listable(pg, s.size) && |v.found| < META_BLOCKS then v.found + [v.blkno] else v.found;
      s.(blocks := s.blocks[v.blkno := pg],
         procs := s.procs[p := v.(blkno := v.blkno + 1, found := found, removedCount := v.removedCount + |gone|)],
         removed := s.removed + gone)
    case VacuumMeta(p) =>
      var found := ProcOf(s, p).found;
      s.(blocks := s.blocks[0 := Meta(0, |found|, found + m.notFull[|found|..])],
         procs := s.procs[p := Idle])
    case BeginScan(p, q) =>
      s.(procs := s.procs[p := Scan(q, 1, |s.blocks|, [], Stored(s), |s.inserted|, |s.removed|)])
    case ScanPage(p) =>
      var v := ProcOf(s, p);
      s.(procs := s.procs[p := v.(blkno := v.blkno + 1, hits := v.hits + PageHits(s.blocks[v.blkno], v.query))])
    case EndScan(p) => s.(procs := s.procs[p := Idle])
  }

  // ----- Runs

  /** The states a sequence of actions passes through from s; each is enabled in turn. */
  ghost predicate IsRun(s: State, acts: seq<Action>)
    decreases |acts|
  {
    acts == [] || (Enabled(s, acts[0]) && IsRun(Apply(s, acts[0]), acts[1..]))
  }

  ghost function After(s: State, acts: seq<Action>): State
    requires IsRun(s, acts)
    decreases |acts|
  {
    if acts == [] then s else After(Apply(s, acts[0]), acts[1..])
  }

  /** A new index: an empty metapage and nobody using it. */
  predicate Initial(s: State) {
    && 0 < s.size && HasRoom(0, s.size)
    && |s.blocks| == 1 && s.blocks[0].Meta?
    && s.blocks[0].nStart == 0 && s.blocks[0].nEnd == 0 && |s.blocks[0].notFull| == META_BLOCKS
    && s.lock.None? && s.procs == map[] && s.inserted == [] && s.removed == []
  }
}
