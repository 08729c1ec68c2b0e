/** The LFU eviction policy (src/backend/storage/buffer/freelist.c): one bucket per access
    frequency and a hint, min_freq, below which all buckets should be empty. */
module Lfu {
  import opened Optional
  import opened EvictionList
  import opened Sieve

  const LFU_MAX_FREQ := 1024

  /** buckets[f] holds the buffers of frequency f, least recently used first; bucket 0 is
      not used. */
  type Buckets = seq<seq<nat>>

  predicate BucketOk(bucket: seq<nat>, freq: seq<nat>, f: nat) {
    Distinct(bucket) && forall i :: 0 <= i < |bucket| ==> bucket[i] < |freq| && freq[bucket[i]] == f != 0
  }

  predicate Filed(buckets: Buckets, freq: seq<nat>, b: nat)
    requires b < |freq| && |buckets| == LFU_MAX_FREQ + 1
  {
    0 < freq[b] <= LFU_MAX_FREQ ==> b in buckets[freq[b]]
  }

  predicate BucketsOk(buckets: Buckets, freq: seq<nat>) {
    && |buckets| == LFU_MAX_FREQ + 1 && buckets[0] == []
    && (forall b :: 0 <= b < |freq| ==> freq[b] <= LFU_MAX_FREQ)
    && (forall f :: 0 <= f < |buckets| ==> BucketOk(buckets[f], freq, f))
    && (forall b :: 0 <= b < |freq| ==> Filed(buckets, freq, b))
  }

  /** The hint is a lower bound on the frequencies in use. */
  predicate LowerBound(buckets: Buckets, hint: nat) {
    forall f :: 0 <= f < hint && f < |buckets| ==> buckets[f] == []
  }

  predicate HasUnpinned(bucket: seq<nat>, pinned: set<nat>) {
    FirstOutside(bucket, pinned) < |bucket|
  }

  /** The first bucket from f on with an unpinned buffer, or LFU_MAX_FREQ + 1. */
  function VictimFreq(buckets: Buckets, pinned: set<nat>, f: nat): (v: nat)
    requires |buckets| == LFU_MAX_FREQ + 1
    ensures f <= LFU_MAX_FREQ ==> f <= v <= LFU_MAX_FREQ + 1
    ensures forall g :: f <= g < v && g <= LFU_MAX_FREQ ==> !HasUnpinned(buckets[g], pinned)
    ensures v <= LFU_MAX_FREQ ==> HasUnpinned(buckets[v], pinned)
    decreases LFU_MAX_FREQ + 1 - f
  {
    if f > LFU_MAX_FREQ then LFU_MAX_FREQ + 1
    else if HasUnpinned(buckets[f], pinned) then f
    else VictimFreq(buckets, pinned, f + 1)
  }

  lemma VictimFreqIs(buckets: Buckets, pinned: set<nat>, m: nat, f: nat)
    requires |buckets| == LFU_MAX_FREQ + 1 && m <= f <= LFU_MAX_FREQ + 1
    requires forall g :: m <= g < f ==> !HasUnpinned(buckets[g], pinned)
    requires f <= LFU_MAX_FREQ ==> HasUnpinned(buckets[f], pinned)
    ensures VictimFreq(buckets, pinned, m) == f
  {
  }

  /** The hint after the walk has left buckets [f, v) behind: past the last empty one. */
  function HintAfter(buckets: Buckets, f: nat, v: nat, hint: nat): nat
    requires v <= |buckets|
    decreases v - f
  {
    if f >= v then hint else HintAfter(buckets, f + 1, v, if buckets[f] == [] then f + 1 else hint)
  }

  /** What the walk from hint m to bucket v can be seen to do to the hint beforehand: no
      bucket left behind still holds (pinned) buffers while a later one is empty, the
      victim's own included if it held nothing else. */
  predicate HintSafe(buckets: Buckets, m: nat, v: nat, emptied: bool)
    requires v <= |buckets|
  {
    forall f :: m <= f < v && buckets[f] != [] ==>
      !emptied && forall g :: f < g < v ==> buckets[g] != []
  }

  lemma {:induction false} HintAfterIs(buckets: Buckets, f: nat, v: nat, hint: nat)
    requires v <= |buckets| && hint <= f
    ensures var h := HintAfter(buckets, f, v, hint);
            && hint <= h && (v >= f ==> h <= v)
            && (h > hint ==> f < h && buckets[h - 1] == [])
            && (forall g :: f <= g < v && g >= h ==> buckets[g] != [])
    decreases v - f
  {
    if f < v {
      HintAfterIs(buckets, f + 1, v, if buckets[f] == [] then f + 1 else hint);
    }
  }

  lemma {:induction false} HintAfterNext(buckets: Buckets, f: nat, v: nat, hint: nat)
    requires f <= v < |buckets|
    ensures HintAfter(buckets, f, v + 1, hint) ==
            if buckets[v] == [] then v + 1 else HintAfter(buckets, f, v, hint)
    decreases v - f
  {
    if f < v {
      HintAfterNext(buckets, f + 1, v, if buckets[f] == [] then f + 1 else hint);
    }
  }

  /** The hint and buckets that LFUGetBuffer leaves when it takes a buffer from bucket v
      (v past the last bucket: it found none). */
  function HintLeft(buckets: Buckets, m: nat, v: nat, rest: seq<nat>): nat
    requires v <= |buckets|
  {
    if v < |buckets| && rest == [] then v else HintAfter(buckets, m, v, m)
  }

  function BucketsLeft(buckets: Buckets, v: nat, rest: seq<nat>): Buckets {
    if v < |buckets| then buckets[v := rest] else buckets
  }

  /** The hint survives an eviction exactly when the walk is safe for it. */
  lemma HintSurvivesIff(buckets: Buckets, m: nat, v: nat, rest: seq<nat>)
    requires m <= v <= |buckets| && LowerBound(buckets, m)
    ensures LowerBound(BucketsLeft(buckets, v, rest), HintLeft(buckets, m, v, rest)) <==>
            HintSafe(buckets, m, v, v < |buckets| && rest == [])
  {
    var left, h := BucketsLeft(buckets, v, rest), HintLeft(buckets, m, v, rest);
    var emptied := v < |buckets| && rest == [];
    HintAfterIs(buckets, m, v, m);
    if LowerBound(left, h) {
      forall f | m <= f < v && buckets[f] != []
        ensures !emptied && forall g :: f < g < v ==> buckets[g] != []
      {
        assert left[f] == buckets[f];
        assert f >= h;
      }
    }
    if HintSafe(buckets, m, v, emptied) {
      forall f | 0 <= f < h && f < |left| ensures left[f] == [] {
      }
    }
  }

  /** With nothing pinned, every eviction is safe for the hint. */
  lemma NothingPinnedIsSafe(buckets: Buckets, m: nat, emptied: bool)
    requires |buckets| == LFU_MAX_FREQ + 1 && m <= LFU_MAX_FREQ + 1
    ensures HintSafe(buckets, m, VictimFreq(buckets, {}, m), emptied)
  {
    var v := VictimFreq(buckets, {}, m);
    forall f | m <= f < v ensures buckets[f] == [] {
      assert !HasUnpinned(buckets[f], {});
    }
  }

  // ----- The policy

  /** Taking a buffer out of its bucket keeps buckets and frequencies in agreement. */
  lemma BucketMove(buckets: Buckets, freq: seq<nat>, b: nat, p: nat)
    requires BucketsOk(buckets, freq) && b < |freq| && freq[b] != 0
    requires Filed(buckets, freq, b) && p < |buckets[freq[b]]| && buckets[freq[b]][p] == b
    ensures BucketsOk(buckets[freq[b] := Without(buckets[freq[b]], p)], freq[b := 0])
  {
    var f := freq[b];
    WithoutDistinct(buckets[f], p);
    var buckets', freq' := buckets[f := Without(buckets[f], p)], freq[b := 0];
    forall g | 0 <= g < |buckets'| ensures BucketOk(buckets'[g], freq', g) {
      assert BucketOk(buckets[g], freq, g) && BucketOk(buckets[f], freq, f);
    }
    forall c | 0 <= c < |freq'| ensures Filed(buckets', freq', c) {
      assert Filed(buckets, freq, c);
    }
  }

  lemma BucketPush(buckets: Buckets, freq: seq<nat>, b: nat, f: nat)
    requires BucketsOk(buckets, freq) && b < |freq| && freq[b] == 0 && 1 <= f <= LFU_MAX_FREQ
    ensures BucketsOk(buckets[f := buckets[f] + [b]], freq[b := f])
  {
    var buckets', freq' := buckets[f := buckets[f] + [b]], freq[b := f];
    forall g | 0 <= g < |buckets'| ensures BucketOk(buckets'[g], freq', g) {
      assert BucketOk(buckets[g], freq, g);
    }
    forall c | 0 <= c < |freq'| ensures Filed(buckets', freq', c) {
      assert Filed(buckets, freq, c);
      if c == b {
        assert buckets'[f][|buckets[f]|] == b;
      }
    }
  }

  /** The buckets without buffer b. */
  ghost function Unfiled(buckets: Buckets, freq: seq<nat>, b: nat): Buckets
    requires BucketsOk(buckets, freq) && b < |freq|
  {
    if freq[b] == 0 then buckets
    else
      assert Filed(buckets, freq, b);
      buckets[freq[b] := Without(buckets[freq[b]], IndexOf(buckets[freq[b]], b))]
  }

  class LfuPolicy {
    const n: nat
    const refcount: array<nat>
    const freq: array<nat>
    var buckets: Buckets
    var minFreq: nat

    ghost predicate Valid()
      reads this, freq
    {
      && refcount.Length == freq.Length == n && refcount != freq
      && BucketsOk(buckets, freq[..]) && 1 <= minFreq <= LFU_MAX_FREQ + 1
    }

    ghost function Pinned(): set<nat>
      requires refcount.Length == n
      reads refcount
    {
      set b | 0 <= b < n && refcount[b] != 0
    }

    /** LFUInitialize: every buffer starts unpinned in bucket 1, the first to go first. */
    constructor (n: nat)
      ensures Valid() && fresh(freq) && fresh(refcount) && this.n == n
      ensures minFreq == 1 && LowerBound(buckets, minFreq) && Pinned() == {}
      ensures buckets[1] == seq(n, i => i)
    {
      this.n := n;
      refcount := new nat[n](_ => 0);
      freq := new nat[n](_ => 1);
      minFreq := 1;
      buckets := seq(LFU_MAX_FREQ + 1, f => if f == 1 then seq(n, i => i) else []);
      new;
      forall b | 0 <= b < n ensures Filed(buckets, freq[..], b) {
        assert buckets[1][b] == b;
      }
    }

    /** LFUBucketUnlink, and the frequency cleared as all its callers do or overwrite. */
    method BucketUnlink(b: nat)
      requires Valid() && b < n && freq[b] != 0
      modifies this`buckets, freq
      ensures Valid() && freq[..] == old(freq[..])[b := 0]
      ensures buckets == Unfiled(old(buckets), old(freq[..]), b)
    {
      assert Filed(buckets, freq[..], b);
      ghost var p := IndexOf(buckets[freq[b]], b);
      InBucket(freq[b]);
      BucketMove(buckets, freq[..], b, p);
      var f := freq[b];
      var k := 0;
      while buckets[f][k] != b
        invariant 0 <= k <= p
        decreases p - k
      {
        k := k + 1;
      }
      IndexUnique(buckets[f], k);
      buckets := buckets[f := Without(buckets[f], k)];
      freq[b] := 0;
    }

    /** LFUBucketInsertMRU with the frequency set. */
    method BucketInsert(b: nat, f: nat)
      requires Valid() && b < n && freq[b] == 0 && 1 <= f <= LFU_MAX_FREQ
      modifies this`buckets, freq
      ensures Valid() && freq[..] == old(freq[..])[b := f]
      ensures buckets == old(buckets)[f := old(buckets[f]) + [b]]
    {
      BucketPush(buckets, freq[..], b, f);
      buckets := buckets[f := buckets[f] + [b]];
      freq[b] := f;
    }

    /** LFUNotifyInsert: frequency 1, and a hint that cannot be wrong. */
    method NotifyInsert(b: nat)
      requires Valid() && b < n
      modifies this`buckets, this`minFreq, freq
      ensures Valid() && freq[..] == old(freq[..])[b := 1] && minFreq == 1
      ensures LowerBound(buckets, minFreq)
      ensures var rest := Unfiled(old(buckets), old(freq[..]), b); buckets == rest[1 := rest[1] + [b]]
    {
      if freq[b] != 0 {
        BucketUnlink(b);
      }
      BucketInsert(b, 1);
      minFreq := 1;
    }

    /** LFUNotifyHit: one bucket up, to its most recently used end. */
    method NotifyHit(b: nat)
      requires Valid() && b < n
      modifies this`buckets, this`minFreq, freq
      ensures Valid()
      ensures old(LowerBound(buckets, minFreq)) ==> LowerBound(buckets, minFreq)
      ensures var f := old(freq[b]);
              var f' := if f == 0 then 0 else if f < LFU_MAX_FREQ then f + 1 else LFU_MAX_FREQ;
              var rest := Unfiled(old(buckets), old(freq[..]), b);
              && freq[..] == old(freq[..])[b := f']
              && buckets == if f == 0 then rest else rest[f' := rest[f'] + [b]]
    {
      var f := freq[b];
      if f == 0 {
        return;
      }
      var newF := if f < LFU_MAX_FREQ then f + 1 else LFU_MAX_FREQ;
      BucketUnlink(b);
      if f == minFreq && buckets[f] == [] {
        minFreq := newF;
      }
      BucketInsert(b, newF);
    }

    /** LFUNotifyInvalidate */
    method NotifyInvalidate(b: nat)
      requires Valid() && b < n
      modifies this`buckets, freq
      ensures Valid() && freq[..] == old(freq[..])[b := 0] && buckets == Unfiled(old(buckets), old(freq[..]), b)
      ensures old(LowerBound(buckets, minFreq)) ==> LowerBound(buckets, minFreq)
    {
      if freq[b] != 0 {
        BucketUnlink(b);
      }
    }

    lemma InBucket(f: nat)
      requires Valid() && f <= LFU_MAX_FREQ
      ensures BucketOk(buckets[f], freq[..], f)
    {
    }

    /** The walk of LFUGetBuffer over one bucket, from its least recently used end. */
    method FirstUnpinned(f: nat) returns (k: nat)
      requires Valid() && f <= LFU_MAX_FREQ
      ensures k == FirstOutside(buckets[f], Pinned())
    {
      k := 0;
      InBucket(f);
      while k < |buckets[f]| && refcount[buckets[f][k]] != 0
        invariant k <= |buckets[f]|
        invariant forall j :: 0 <= j < |buckets[f]| ==> buckets[f][j] < n
        invariant forall j :: 0 <= j < k ==> buckets[f][j] in Pinned()
      {
        k := k + 1;
      }
      FirstOutsideIs(buckets[f], Pinned(), k);
    }

    /** The walk of LFUGetBuffer over the buckets, moving the hint past empty ones. */
    method FindVictim() returns (f: nat, k: nat)
      requires Valid()
      modifies this`minFreq
      ensures Valid() && f == VictimFreq(buckets, Pinned(), old(minFreq))
      ensures minFreq == HintAfter(buckets, old(minFreq), f, old(minFreq)) && old(minFreq) <= f <= LFU_MAX_FREQ + 1
      ensures f <= LFU_MAX_FREQ ==> k == FirstOutside(buckets[f], Pinned()) < |buckets[f]|
    {
      ghost var m, pinned, all := minFreq, Pinned(), buckets;
      f := minFreq;
      k := 0;
      while f <= LFU_MAX_FREQ
        invariant Valid() && m <= f <= LFU_MAX_FREQ + 1 && minFreq <= f
        invariant pinned == Pinned() && all == buckets
        invariant forall g :: m <= g < f ==> !HasUnpinned(all[g], pinned)
        invariant minFreq == HintAfter(all, m, f, m)
      {
        k := FirstUnpinned(f);
        if k < |buckets[f]| {
          VictimFreqIs(all, pinned, m, f);
          return;
        }
        LeaveBucket(f, m);
        f := f + 1;
      }
      VictimFreqIs(all, pinned, m, f);
    }

    /** The hint moves past an empty bucket. */
    method LeaveBucket(f: nat, ghost m: nat)
      requires Valid() && m <= f <= LFU_MAX_FREQ && minFreq == HintAfter(buckets, m, f, m)
      modifies this`minFreq
      ensures Valid() && minFreq == HintAfter(buckets, m, f + 1, m)
      ensures old(minFreq) <= f ==> minFreq <= f + 1
    {
      HintAfterNext(buckets, m, f, m);
      if buckets[f] == [] {
        minFreq := f + 1;
      }
    }

    /** LFUGetBuffer. None stands for the error "no unpinned buffers available". */
    method GetBuffer() returns (victim: Option<nat>)
      requires Valid()
      modifies this`buckets, this`minFreq, freq, refcount
      ensures Valid()
      ensures var v := VictimFreq(old(buckets), old(Pinned()), old(minFreq));
              && (victim.None? <==> v == LFU_MAX_FREQ + 1)
              && (victim.None? ==>
                    && buckets == old(buckets) && freq[..] == old(freq[..]) && refcount[..] == old(refcount[..])
                    && minFreq == HintLeft(old(buckets), old(minFreq), v, []))
              && (victim.Some? ==>
                    var i := FirstOutside(old(buckets)[v], old(Pinned()));
                    && i < |old(buckets)[v]| && victim.value == old(buckets)[v][i] && victim.value < n
                    && buckets == BucketsLeft(old(buckets), v, Without(old(buckets)[v], i))
                    && minFreq == HintLeft(old(buckets), old(minFreq), v, Without(old(buckets)[v], i))
                    && freq[..] == old(freq[..])[victim.value := 0]
                    && refcount[..] == old(refcount[..])[victim.value := 1])
    {
      var f, k := FindVictim();
      if f > LFU_MAX_FREQ {
        return None;
      }
      var candidate := Claim(f, k);
      return Some(candidate);
    }

    /** Pins the unpinned buffer at position k of bucket f and takes it out. */
    method Claim(f: nat, k: nat) returns (candidate: nat)
      requires Valid() && f <= LFU_MAX_FREQ && k < |buckets[f]| && buckets[f][k] !in Pinned()
      modifies this`buckets, this`minFreq, freq, refcount
      ensures Valid() && candidate == old(buckets[f][k]) && candidate < n
      ensures var rest := Without(old(buckets[f]), k);
              buckets == old(buckets)[f := rest] && minFreq == if rest == [] then f else old(minFreq)
      ensures freq[..] == old(freq[..])[candidate := 0] && refcount[..] == old(refcount[..])[candidate := 1]
    {
      InBucket(f);
      IndexUnique(buckets[f], k);
      candidate := buckets[f][k];
      refcount[candidate] := refcount[candidate] + 1;
      BucketUnlink(candidate);
      if buckets[f] == [] {
        minFreq := f;
      }
    }
  }

  /** While the hint holds, LFUGetBuffer fails only if everything is pinned, and otherwise
      takes a buffer of the least frequency any unpinned buffer has. */
  lemma LeastFrequentGoes(buckets: Buckets, freq: seq<nat>, pinned: set<nat>, hint: nat, b: nat)
    requires BucketsOk(buckets, freq) && LowerBound(buckets, hint) && 1 <= hint <= LFU_MAX_FREQ + 1
    requires b < |freq| && freq[b] != 0 && b !in pinned
    ensures VictimFreq(buckets, pinned, hint) <= freq[b]
  {
    var v := VictimFreq(buckets, pinned, hint);
    var f := freq[b];
    assert Filed(buckets, freq, b);
    var j :| 0 <= j < |buckets[f]| && buckets[f][j] == b;
    assert HasUnpinned(buckets[f], pinned);
  }

  // ----- A lost hint hides free buffers

  /** One pinned buffer of frequency 1, nothing else. */
  function OnePinned(): Buckets {
    seq(LFU_MAX_FREQ + 1, f => if f == 1 then [0] else [])
  }

  lemma {:induction false} EmptyTail(f: nat, hint: nat)
    requires 2 <= f <= LFU_MAX_FREQ + 1 && (f == 2 || hint == f)
    ensures VictimFreq(OnePinned(), {}, f) == LFU_MAX_FREQ + 1
    ensures VictimFreq(OnePinned(), {0}, f) == LFU_MAX_FREQ + 1
    ensures f <= LFU_MAX_FREQ || f == hint ==> HintAfter(OnePinned(), f, LFU_MAX_FREQ + 1, hint) == LFU_MAX_FREQ + 1
    decreases LFU_MAX_FREQ + 1 - f
  {
    if f <= LFU_MAX_FREQ {
      EmptyTail(f + 1, f + 1);
    }
  }

  /** A call made while the only buffer is pinned moves the hint past every bucket; once
      the buffer is released the next call still finds nothing. */
  lemma LostHintHidesFreeBuffer()
    ensures var v := VictimFreq(OnePinned(), {0}, 1);
            var hint := HintLeft(OnePinned(), 1, v, []);
            && LowerBound(OnePinned(), 1) && v == LFU_MAX_FREQ + 1 && hint == LFU_MAX_FREQ + 1
            && HasUnpinned(OnePinned()[1], {}) && VictimFreq(OnePinned(), {}, hint) == LFU_MAX_FREQ + 1
  {
    EmptyTail(2, 1);
  }
}
