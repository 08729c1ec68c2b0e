/** Data pages of a Bloom index: append at the end, compaction in place
    (contrib/bloom/bloom.h, contrib/bloom/blutils.c, contrib/bloom/blvacuum.c). */
module BloomPage {
  import opened BloomSignature

  const BLCKSZ := 8192
  const PAGE_HEADER := 24
  const PAGE_OPAQUE := 8

  /** A heap tuple identifier; every heap row has its own. */
  type Tid = nat

  datatype Tuple = Tuple(heapPtr: Tid, sign: Signature)

  /** sizeOfBloomTuple: a 6-byte item pointer and the signature words. */
  function TupleSize(bloomLength: nat): nat {
    6 + 2 * bloomLength
  }

  /** BloomPageGetFreeSpace leaves room for one more tuple. */
  predicate HasRoom(count: nat, size: nat) {
    BLCKSZ - PAGE_HEADER - count * size - PAGE_OPAQUE >= size
  }

  // ----- What compaction keeps and drops

  function Survivors(s: seq<Tuple>, dead: set<Tid>): seq<Tuple> {
    if s == [] then []
    else
      var rest := Survivors(s[..|s| - 1], dead);
      var last := s[|s| - 1];
      if last.heapPtr in dead then rest else rest + [last]
  }

  function Dropped(s: seq<Tuple>, dead: set<Tid>): seq<Tuple> {
    if s == [] then []
    else
      var rest := Dropped(s[..|s| - 1], dead);
      var last := s[|s| - 1];
      if last.heapPtr in dead then rest + [last] else rest
  }

  lemma {:induction false} CompactionCounts(s: seq<Tuple>, dead: set<Tid>)
    ensures |s| == |Survivors(s, dead)| + |Dropped(s, dead)|
  {
    if s != [] {
      CompactionCounts(s[..|s| - 1], dead);
    }
  }

  /** Compaction splits a page's tuples into the live and the dead, losing none. */
  lemma {:induction false} CompactionConserves(s: seq<Tuple>, dead: set<Tid>)
    ensures multiset(s) == multiset(Survivors(s, dead)) + multiset(Dropped(s, dead))
  {
    if s != [] {
      CompactionConserves(s[..|s| - 1], dead);
      assert s == s[..|s| - 1] + [s[|s| - 1]];
    }
  }

  lemma {:induction false} CompactionSeparates(s: seq<Tuple>, dead: set<Tid>, t: Tuple)
    ensures t in Survivors(s, dead) <==> t in s && t.heapPtr !in dead
    ensures t in Dropped(s, dead) <==> t in s && t.heapPtr in dead
  {
    if s != [] {
      CompactionSeparates(s[..|s| - 1], dead, t);
      assert s == s[..|s| - 1] + [s[|s| - 1]];
    }
  }

  lemma {:induction false} NothingDropped(s: seq<Tuple>, dead: set<Tid>)
    requires Dropped(s, dead) == []
    ensures Survivors(s, dead) == s
  {
    if s != [] {
      NothingDropped(s[..|s| - 1], dead);
      assert s == s[..|s| - 1] + [s[|s| - 1]];
    }
  }

  /** The survivors among the first n tuples. */
  ghost function KeptTo(s: seq<Tuple>, n: nat, dead: set<Tid>): seq<Tuple>
    requires n <= |s|
  {
    if n == 0 then []
    else if s[n - 1].heapPtr in dead then KeptTo(s, n - 1, dead)
    else KeptTo(s, n - 1, dead) + [s[n - 1]]
  }

  lemma {:induction false} KeptIsSurvivors(s: seq<Tuple>, n: nat, dead: set<Tid>)
    requires n <= |s|
    ensures KeptTo(s, n, dead) == Survivors(s[..n], dead)
    decreases n
  {
    if n != 0 {
      KeptIsSurvivors(s, n - 1, dead);
      assert s[..n][..n - 1] == s[..n - 1];
    }
  }

  /** Slides the tuples that stay down over those that go, reading and writing one
      array through two cursors; returns the number kept. */
  method SlideSurvivors(a: array<Tuple>, end: nat, dead: set<Tid>) returns (itupPtr: nat)
    requires end <= a.Length
    modifies a
    ensures itupPtr <= end
    ensures a[..itupPtr] == Survivors(old(a[..end]), dead)
  {
    ghost var was := a[..end];
    ghost var kept: seq<Tuple> := [];
    var itup := 0;
    itupPtr := 0;
    while itup < end
      invariant 0 <= itupPtr <= itup <= end
      invariant kept == KeptTo(was, itup, dead) && |kept| == itupPtr
      invariant forall j :: 0 <= j < itupPtr ==> a[j] == kept[j]
      invariant forall j :: itup <= j < end ==> a[j] == was[j]
    {
      if a[itup].heapPtr !in dead {
        if itupPtr != itup {
          a[itupPtr] := a[itup];
        }
        itupPtr := itupPtr + 1;
        kept := kept + [was[itup]];
      }
      itup := itup + 1;
    }
    KeptIsSurvivors(was, end, dead);
    assert was[..end] == was && a[..itupPtr] == kept;
  }

  /** A page in memory: `slots` is the tuple area, of which maxoff entries are in use. */
  class DataPage {
    const size: nat
    const slots: array<Tuple>
    var maxoff: nat
    var deleted: bool
    var pdLower: nat

    ghost predicate Valid()
      reads this
    {
      && size > 0
      && maxoff <= slots.Length
      && slots.Length * size <= BLCKSZ - PAGE_HEADER - PAGE_OPAQUE < (slots.Length + 1) * size
      && pdLower == PAGE_HEADER + maxoff * size
    }

    ghost function Items(): seq<Tuple>
      requires Valid()
      reads this, slots
    {
      slots[..maxoff]
    }

    /** BloomInitPage on a page whose tuples have this size. */
    constructor (size: nat, filler: Tuple)
      requires 0 < size
      ensures Valid() && fresh(slots) && this.size == size
      ensures Items() == [] && !deleted
    {
      this.size := size;
      var capacity := (BLCKSZ - PAGE_HEADER - PAGE_OPAQUE) / size;
      slots := new Tuple[capacity](_ => filler);
      maxoff, deleted, pdLower := 0, false, PAGE_HEADER;
      new;
      Capacity(size);
    }

    /** BloomPageAddItem: refuses exactly when the page has no room. */
    method AddItem(t: Tuple) returns (ok: bool)
      requires Valid() && !deleted
      modifies this, slots
      ensures Valid() && !deleted
      ensures ok == HasRoom(|old(Items())|, size)
      ensures Items() == if ok then old(Items()) + [t] else old(Items())
    {
      if BLCKSZ - PAGE_HEADER - maxoff * size - PAGE_OPAQUE < size {
        return false;
      }
      RoomMeansSlot(maxoff, slots.Length, size);
      slots[maxoff] := t;
      maxoff := maxoff + 1;
      pdLower := PAGE_HEADER + maxoff * size;
      ok := true;
    }

    /** The page loop of blbulkdelete: slides survivors down over the dead. */
    method Compact(dead: set<Tid>) returns (removed: nat)
      requires Valid() && !deleted
      modifies this, slots
      ensures Valid()
      ensures Items() == Survivors(old(Items()), dead)
      ensures removed == |Dropped(old(Items()), dead)|
      ensures deleted <==> removed > 0 && maxoff == 0
    {
      ghost var was := Items();
      var itup := maxoff;
      var itupPtr := SlideSurvivors(slots, maxoff, dead);
      CompactionCounts(was, dead);
      removed := maxoff - itupPtr;
      maxoff := itupPtr;
      if itupPtr != itup {
        if maxoff == 0 {
          deleted := true;
        }
        pdLower := PAGE_HEADER + itupPtr * size;
      }
    }
  }

  lemma Capacity(size: nat)
    requires size > 0
    ensures var c := (BLCKSZ - PAGE_HEADER - PAGE_OPAQUE) / size;
            c * size <= BLCKSZ - PAGE_HEADER - PAGE_OPAQUE < (c + 1) * size
  {
  }

  lemma RoomMeansSlot(n: nat, capacity: nat, size: nat)
    requires size > 0 && n <= capacity
    requires n * size + size <= BLCKSZ - PAGE_HEADER - PAGE_OPAQUE < (capacity + 1) * size
    ensures n < capacity
  {
  }

  /** An empty page always takes a tuple: signatures have at most 256 words. */
  lemma EmptyPageHasRoom(bloomLength: nat)
    requires bloomLength <= 256
    ensures HasRoom(0, TupleSize(bloomLength))
  {
  }
}
