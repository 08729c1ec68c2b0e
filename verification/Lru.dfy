/** The LRU eviction policy (src/backend/storage/buffer/freelist.c): the list of EvictionList
    kept in order of last use. */
module Lru {
  import opened Optional
  import opened EvictionList

  class LruPolicy {
    const links: Links
    const refcount: array<nat>
    /** When each buffer was last loaded or hit; kept for the proof only. */
    ghost var lastUse: seq<int>
    ghost var clock: int

    ghost predicate Valid()
      reads this, links, links.next, links.prev
    {
      && links.Valid()
      && refcount.Length == links.n && refcount != links.next && refcount != links.prev
      && |lastUse| == links.n
      && (forall b :: 0 <= b < links.n ==> lastUse[b] < clock)
      && (forall i, j :: 0 <= i < j < |links.queue| ==> lastUse[links.queue[i]] < lastUse[links.queue[j]])
    }

    /** LRUInitialize */
    constructor (n: nat)
      requires n > 0
      ensures Valid() && links.n == n && links.queue == seq(n, i => i)
      ensures fresh(links) && fresh(links.next) && fresh(links.prev) && fresh(refcount)
    {
      var l := new Links(n);
      links := l;
      refcount := new nat[n](_ => 0);
      lastUse := seq(n, i => i);
      clock := n;
    }

    /** LRUNotifyHit: a buffer on the list becomes the most recently used. */
    method NotifyHit(b: nat)
      requires Valid() && b < links.n
      modifies this, links, links.next, links.prev
      ensures Valid()
      ensures if b in old(links.queue)
              then && links.queue == Without(old(links.queue), IndexOf(old(links.queue), b)) + [b]
                   && lastUse == old(lastUse)[b := old(clock)] && clock == old(clock) + 1
              else links.queue == old(links.queue) && lastUse == old(lastUse) && clock == old(clock)
    {
      var present := links.InList(b);
      if present {
        MoveToHead(b, true);
      }
    }

    /** LRUNotifyInsert: a loaded buffer becomes the most recently used. */
    method NotifyInsert(b: nat)
      requires Valid() && b < links.n
      modifies this, links, links.next, links.prev
      ensures Valid() && lastUse == old(lastUse)[b := old(clock)] && clock == old(clock) + 1
      ensures links.queue == (if b in old(links.queue)
                              then Without(old(links.queue), IndexOf(old(links.queue), b))
                              else old(links.queue)) + [b]
    {
      var present := links.InList(b);
      MoveToHead(b, present);
    }

    method MoveToHead(b: nat, present: bool)
      requires Valid() && b < links.n && (present <==> b in links.queue)
      modifies this, links, links.next, links.prev
      ensures Valid() && lastUse == old(lastUse)[b := old(clock)] && clock == old(clock) + 1
      ensures links.queue == (if present then Without(old(links.queue), IndexOf(old(links.queue), b))
                              else old(links.queue)) + [b]
    {
      if present {
        ghost var q, p := links.queue, IndexOf(links.queue, b);
        links.Unlink(b, p);
        WithoutDistinct(q, p);
        KeepsOrder(q, p, lastUse);
      }
      ghost var q := links.queue;
      links.PushHead(b);
      lastUse := lastUse[b := clock];
      clock := clock + 1;
      assert forall i :: 0 <= i < |q| ==> links.queue[i] == q[i] && q[i] != b;
    }

    /** LRUNotifyInvalidate */
    method NotifyInvalidate(b: nat)
      requires Valid() && b < links.n
      modifies links, links.next, links.prev
      ensures Valid()
      ensures links.queue == if b in old(links.queue) then Without(old(links.queue), IndexOf(old(links.queue), b))
                             else old(links.queue)
    {
      var present := links.InList(b);
      if present {
        ghost var q, p := links.queue, IndexOf(links.queue, b);
        links.Unlink(b, p);
        KeepsOrder(q, p, lastUse);
      }
    }

    /** LRUGetBuffer: of the unpinned buffers on the list, the least recently used. None
        stands for its errors: an empty list, or nothing but pinned buffers on it. */
    method GetBuffer() returns (victim: Option<nat>)
      requires Valid()
      modifies refcount, links, links.next, links.prev
      ensures Valid()
      ensures victim.None? <==> forall b :: b in old(links.queue) ==> old(refcount[b]) != 0
      ensures victim.None? ==> links.queue == old(links.queue)
      ensures victim.Some? ==>
                && victim.value in old(links.queue) && old(refcount[victim.value]) == 0
                && (forall b :: b in old(links.queue) && b != victim.value && old(refcount[b]) == 0 ==>
                      lastUse[victim.value] < lastUse[b])
                && links.queue == Without(old(links.queue), IndexOf(old(links.queue), victim.value))
                && refcount[victim.value] == 1
                && forall b :: 0 <= b < links.n && b != victim.value ==> refcount[b] == old(refcount[b])
    {
      ghost var q := links.queue;
      var found, candidate := OldestUnpinned();
      if !found {
        return None;
      }
      ghost var p := IndexOf(q, candidate);
      refcount[candidate] := refcount[candidate] + 1;
      links.Unlink(candidate, p);
      KeepsOrder(q, p, lastUse);
      victim := Some(candidate);
    }

    /** The next newer buffer, from the newest back to the oldest. */
    method NextAround(candidate: nat) returns (next: nat)
      requires Valid() && candidate in links.queue
      ensures var q, k := links.queue, IndexOf(links.queue, candidate); next == if k + 1 < |q| then q[k + 1] else q[0]
    {
      next := links.next[candidate];
      if next == links.n {
        next := links.prev[links.n];
      }
    }

    /** The walk of LRUGetBuffer from the tail; gives up after NBuffers pinned buffers. */
    method OldestUnpinned() returns (found: bool, candidate: nat)
      requires Valid()
      ensures found <==> exists b :: b in links.queue && refcount[b] == 0
      ensures found ==>
                && candidate in links.queue && refcount[candidate] == 0
                && forall b :: b in links.queue && b != candidate && refcount[b] == 0 ==> lastUse[candidate] < lastUse[b]
    {
      ghost var q := links.queue;
      DistinctBound(q, links.n);
      candidate := links.prev[links.n];
      if candidate == links.n {
        return false, candidate;
      }
      var trycounter := links.n;
      ghost var i := 0;
      while refcount[candidate] != 0
        invariant 0 <= i <= |q| && 0 < trycounter <= links.n && candidate in q && candidate < links.n
        invariant i < |q| ==> candidate == q[i] && trycounter == links.n - i
        invariant forall j :: 0 <= j < i ==> refcount[q[j]] != 0
        decreases trycounter
      {
        if i < |q| {
          IndexUnique(q, i);
          i := i + 1;
        }
        candidate := NextAround(candidate);
        trycounter := trycounter - 1;
        if trycounter == 0 {
          return false, candidate;
        }
      }
      found := true;
    }
  }

  lemma KeepsOrder(q: seq<nat>, p: nat, lastUse: seq<int>)
    requires p < |q| && forall i :: 0 <= i < |q| ==> q[i] < |lastUse|
    requires forall i, j :: 0 <= i < j < |q| ==> lastUse[q[i]] < lastUse[q[j]]
    ensures forall i :: 0 <= i < |Without(q, p)| ==> Without(q, p)[i] < |lastUse|
    ensures forall i, j :: 0 <= i < j < |Without(q, p)| ==> lastUse[Without(q, p)[i]] < lastUse[Without(q, p)[j]]
  {
    var r := Without(q, p);
    forall i, j | 0 <= i < j < |r| ensures lastUse[r[i]] < lastUse[r[j]] {
      assert r[i] == q[if i < p then i else i + 1] && r[j] == q[if j < p then j else j + 1];
    }
  }
}
