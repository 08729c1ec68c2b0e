/** Transaction ids in the heap check (contrib/amcheck/verify_heapam.c): widening 32-bit ids
    against a cached range, and judging them when the cache may be stale. */
module HeapXid {
  import opened CArith

  const FIRST_NORMAL := 3
  const TWO_64 := 0x1_0000_0000_0000_0000

  type Xid = x: nat | x < TWO_32
  type FullXid = x: nat | x < TWO_64

  predicate IsNormal(x: nat) { x >= FIRST_NORMAL }

  function Low(f: FullXid): Xid { f % TWO_32 }

  /** The signed 32-bit distance from xid up to the next id. */
  function Diff(xid: Xid, next: FullXid): (d: int)
    ensures IsInt32(d)
  {
    ToInt32((Low(next) - xid) % TWO_32)
  }

  /** FullTransactionIdFromXidAndCtx */
  function Widen(xid: Xid, next: FullXid): FullXid
    requires IsNormal(next)
  {
    if !IsNormal(xid) then xid
    else
      var diff := Diff(xid, next);
      if diff > 0 && next - FIRST_NORMAL < diff then FIRST_NORMAL else (next - diff) % TWO_64
  }

  /** f lies in the half-open window of 2^32 ids around next. */
  predicate InWindow(f: FullXid, next: FullXid) {
    -TWO_31 <= next - f < TWO_31
  }

  lemma DiffIs(f: FullXid, next: FullXid)
    ensures (next - f - Diff(Low(f), next)) % TWO_32 == 0
    ensures InWindow(f, next) ==> Diff(Low(f), next) == next - f
  {
    var d := next - f;
    LowOfDifference(next, f);
    assert (Low(next) - Low(f)) % TWO_32 == d % TWO_32;
    if 0 <= d < TWO_31 {
      assert d % TWO_32 == d;
    } else if -TWO_31 <= d < 0 {
      assert d % TWO_32 == d + TWO_32 by {
        assert (d + TWO_32) % TWO_32 == d + TWO_32;
      }
    }
  }

  lemma LowOfDifference(a: nat, b: nat)
    ensures (a % TWO_32 - b % TWO_32) % TWO_32 == (a - b) % TWO_32
  {
    var q := a / TWO_32 - b / TWO_32;
    assert a - b == (a % TWO_32 - b % TWO_32) + q * TWO_32;
    AddMultiple(a % TWO_32 - b % TWO_32, q);
  }

  lemma AddMultiple(x: int, q: int)
    ensures (x + q * TWO_32) % TWO_32 == x % TWO_32
  {
  }

  /** Past the end of the 64-bit ids: next is about to wrap and f is among the first. */
  predicate Wrapped(f: FullXid, next: FullXid) { next - f >= TWO_64 - TWO_31 }

  /** Widening the low word of a normal id gives the id back exactly when the id is within 2^31
      of the next one, counting around the end of the 64-bit range. */
  lemma WidenIff(f: FullXid, next: FullXid)
    requires IsNormal(next) && IsNormal(f) && IsNormal(Low(f))
    ensures Widen(Low(f), next) == f <==> InWindow(f, next) || Wrapped(f, next)
  {
    var diff := Diff(Low(f), next);
    DiffIs(f, next);
    var candidate := next - diff;
    if candidate >= TWO_64 {
      assert candidate % TWO_64 == candidate - TWO_64;
    } else if candidate >= 0 {
      assert candidate % TWO_64 == candidate;
    }
    if Wrapped(f, next) {
      var around := next - f - TWO_64;
      assert (around - diff) % TWO_32 == 0 by {
        AddMultiple(around - diff, TWO_32);
      }
      assert around == diff;
    }
  }

  /** What widening yields in general: the first normal id when the id would lie before it, and
      otherwise an id with the right low word, at most 2^31 from next. */
  lemma WidenReads(xid: Xid, next: FullXid)
    requires IsNormal(next) && IsNormal(xid) && next < TWO_64 - TWO_31
    ensures var f := Widen(xid, next);
            && IsNormal(f) && (f == FIRST_NORMAL || (Low(f) == xid && InWindow(f, next)))
  {
    var diff := Diff(xid, next);
    var candidate := next - diff;
    if 0 <= candidate {
      assert candidate % TWO_64 == candidate;
      assert candidate == (Low(next) - diff) + (next / TWO_32) * TWO_32;
      AddMultiple(Low(next) - diff, next / TWO_32);
      DiffLow(xid, next);
    }
  }

  lemma DiffLow(xid: Xid, next: FullXid)
    ensures (Low(next) - Diff(xid, next)) % TWO_32 == xid
  {
    var diff := Diff(xid, next);
    if diff == Low(next) - xid + TWO_32 {
      AddMultiple(xid, -1);
    } else if diff == Low(next) - xid - TWO_32 {
      AddMultiple(xid, 1);
    }
  }

  // ----- Judging an id

  datatype Violation = Ok | Invalid | InFuture | PrecedesClusterMin | PrecedesRelMin

  datatype Status = Committed | IsCurrent | InProgress | Aborted

  /** The cached range of valid ids. */
  datatype Range = Range(next: FullXid, oldest: FullXid)

  /** The shared counters as a refresh finds them. */
  datatype Shared = Shared(next: FullXid, oldest: Xid) {
    predicate Valid() { IsNormal(next) && IsNormal(Low(next)) }

    function Fresh(): Range
      requires Valid()
    {
      Range.Range(next, Widen(oldest, next))
    }
  }

  /** fxid_in_cached_range */
  predicate InRange(f: FullXid, r: Range) { r.oldest <= f < r.next }

  /** The range in force when the verdict is given: the cached one if the id falls in it, else
      a fresh one. */
  function RangeUsed(xid: Xid, cache: Range, now: Shared): Range
    requires IsNormal(cache.next) && now.Valid()
  {
    if !IsNormal(xid) || InRange(Widen(xid, cache.next), cache) then cache else now.Fresh()
  }

  function BoundsOf(f: FullXid, r: Range, relfrozen: FullXid): Violation {
    if r.next <= f then InFuture
    else if f < r.oldest then PrecedesClusterMin
    else if f < relfrozen then PrecedesRelMin
    else Ok
  }

  function Judge(xid: Xid, cache: Range, now: Shared, relfrozen: FullXid): Violation
    requires IsNormal(cache.next) && now.Valid()
  {
    if xid == 0 then Invalid
    else if !IsNormal(xid) then Ok
    else
      var r := RangeUsed(xid, cache, now);
      BoundsOf(Widen(xid, r.next), r, relfrozen)
  }

  /** The verdict on the low word of a true id f, started from a cache that may be stale: "in
      future" is reported exactly for ids not yet assigned, and "before the cluster minimum"
      exactly for ids older than the fresh minimum that the cache does not vouch for. */
  lemma StaleCacheVerdict(f: FullXid, cache: Range, now: Shared, relfrozen: FullXid)
    requires IsNormal(cache.next) && now.Valid() && cache.next <= now.next
    requires IsNormal(f) && IsNormal(Low(f)) && InWindow(f, cache.next) && InWindow(f, now.next)
    ensures var v := Judge(Low(f), cache, now, relfrozen);
            && (v.InFuture? <==> f >= now.next)
            && (v.PrecedesClusterMin? <==> f < now.Fresh().oldest && f < now.next && !InRange(f, cache))
            && (v.PrecedesRelMin? ==> f < relfrozen)
            && (v.Ok? ==> relfrozen <= f < now.next && (InRange(f, cache) || InRange(f, now.Fresh())))
  {
    WidenIff(f, cache.next);
    WidenIff(f, now.next);
  }

  /** The two alarms need only the fresh window: whatever the stale cache made of the id, it is
      called unassigned or too old only when it is. */
  lemma NoFalseAlarm(f: FullXid, cache: Range, now: Shared, relfrozen: FullXid)
    requires IsNormal(cache.next) && now.Valid()
    requires IsNormal(f) && IsNormal(Low(f)) && InWindow(f, now.next)
    ensures Judge(Low(f), cache, now, relfrozen).InFuture? ==> f >= now.next
    ensures Judge(Low(f), cache, now, relfrozen).PrecedesClusterMin? ==> f < now.Fresh().oldest
  {
    WidenIff(f, now.next);
  }

  // ----- Whole runs

  /** One call: the low word of a true id, and the shared counters at that moment. */
  datatype Call = Call(f: FullXid, now: Shared)

  /** Shared counters only grow. */
  predicate Growing(cache: Range, calls: seq<Call>) {
    && IsNormal(cache.next)
    && (forall i :: 0 <= i < |calls| ==> calls[i].now.Valid() && cache.next <= calls[i].now.next)
    && (forall i, j :: 0 <= i < j < |calls| ==> calls[i].now.next <= calls[j].now.next)
  }

  /** The cache after a run of calls. */
  function CacheAfter(cache: Range, calls: seq<Call>): (r: Range)
    requires Growing(cache, calls)
    ensures IsNormal(r.next)
    ensures cache.next <= r.next
    ensures if calls == [] then r == cache else r.next <= calls[|calls| - 1].now.next
  {
    if calls == [] then cache
    else
      var last := calls[|calls| - 1];
      RangeUsed(Low(last.f), CacheAfter(cache, calls[..|calls| - 1]), last.now)
  }

  /** However stale the cache has become on the way, each verdict of a run is exact. */
  lemma RunVerdict(cache: Range, calls: seq<Call>, k: nat, relfrozen: FullXid)
    requires Growing(cache, calls) && k < |calls|
    requires IsNormal(calls[k].f) && IsNormal(Low(calls[k].f))
    requires InWindow(calls[k].f, cache.next) && InWindow(calls[k].f, calls[k].now.next)
    ensures var f, now, before := calls[k].f, calls[k].now, CacheAfter(cache, calls[..k]);
            var v := Judge(Low(f), before, now, relfrozen);
            && (v.InFuture? <==> f >= now.next)
            && (v.PrecedesClusterMin? <==> f < now.Fresh().oldest && f < now.next && !InRange(f, before))
  {
    var before := CacheAfter(cache, calls[..k]);
    assert before.next <= calls[k].now.next;
    StaleCacheVerdict(calls[k].f, before, calls[k].now, relfrozen);
  }

  /** What the commit log and the running transactions say about one id. */
  datatype Clog = Clog(oldestClogXid: Xid, isCurrent: bool, inProgress: bool, didCommit: bool)

  function StatusOf(f: FullXid, next: FullXid, clog: Clog): Status
    requires IsNormal(next)
  {
    if Widen(clog.oldestClogXid, next) > f then Committed
    else if clog.isCurrent then IsCurrent
    else if clog.inProgress then InProgress
    else if clog.didCommit then Committed
    else Aborted
  }

  class HeapCheckContext {
    var nextFxid: FullXid
    var nextXid: Xid
    var oldestXid: Xid
    var oldestFxid: FullXid
    var relfrozenFxid: FullXid
    var cachedXid: Xid
    var cachedStatus: Status

    ghost predicate Valid()
      reads this
    {
      IsNormal(nextFxid) && nextXid == Low(nextFxid) && IsNormal(nextXid)
    }

    ghost function Cache(): Range
      reads this
    {
      Range(nextFxid, oldestFxid)
    }

    /** update_cached_xid_range */
    method UpdateCachedXidRange(now: Shared)
      requires now.Valid()
      modifies this`nextFxid, this`nextXid, this`oldestXid, this`oldestFxid
      ensures Valid() && Cache() == now.Fresh()
    {
      nextFxid, oldestXid := now.next, now.oldest;
      nextXid := Low(nextFxid);
      oldestFxid := Widen(oldestXid, nextFxid);
    }

    /** get_xid_status; `now` is what a refresh would read, `clog` the log's answers. */
    method GetXidStatus(xid: Xid, now: Shared, clog: Clog, wantStatus: bool) returns (v: Violation, status: Status)
      requires Valid() && now.Valid()
      modifies this`nextFxid, this`nextXid, this`oldestXid, this`oldestFxid, this`cachedXid, this`cachedStatus
      ensures Valid() && v == Judge(xid, old(Cache()), now, relfrozenFxid)
      ensures Cache() == RangeUsed(xid, old(Cache()), now)
      ensures v.Ok? && wantStatus ==>
                status == if !IsNormal(xid) then Committed
                          else if xid == old(cachedXid) then old(cachedStatus)
                          else StatusOf(Widen(xid, nextFxid), nextFxid, clog)
      ensures if v.Ok? && wantStatus && IsNormal(xid) then cachedXid == xid && cachedStatus == status
              else cachedXid == old(cachedXid) && cachedStatus == old(cachedStatus)
    {
      status := Committed;
      if xid == 0 {
        return Invalid, status;
      }
      if xid == 1 || xid == 2 {
        return Ok, status;
      }
      var fxid := Widen(xid, nextFxid);
      if !(oldestFxid <= fxid && fxid < nextFxid) {
        UpdateCachedXidRange(now);
        fxid := Widen(xid, nextFxid);
      }
      if nextFxid <= fxid {
        return InFuture, status;
      }
      if fxid < oldestFxid {
        return PrecedesClusterMin, status;
      }
      if fxid < relfrozenFxid {
        return PrecedesRelMin, status;
      }
      if !wantStatus {
        return Ok, status;
      }
      if xid == cachedXid {
        return Ok, cachedStatus;
      }
      var clogHorizon := Widen(clog.oldestClogXid, nextFxid);
      if clogHorizon <= fxid {
        if clog.isCurrent {
          status := IsCurrent;
        } else if clog.inProgress {
          status := InProgress;
        } else if clog.didCommit {
          status := Committed;
        } else {
          status := Aborted;
        }
      }
      cachedXid, cachedStatus := xid, status;
      return Ok, status;
    }
  }
}
