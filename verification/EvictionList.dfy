/** The doubly linked buffer list that SIEVE and LRU keep in two integer arrays, with one
    sentinel cell at index NBuffers (src/backend/storage/buffer/freelist.c). */
module EvictionList {

  /** No buffer occurs twice. */
  predicate Distinct(q: seq<nat>) {
    forall i, j :: 0 <= i < j < |q| ==> q[i] != q[j]
  }

  function Without(q: seq<nat>, p: nat): seq<nat>
    requires p < |q|
  {
    q[..p] + q[p + 1..]
  }

  lemma WithoutDistinct(q: seq<nat>, p: nat)
    requires Distinct(q) && p < |q|
    ensures Distinct(Without(q, p)) && q[p] !in Without(q, p)
    ensures forall b :: b in Without(q, p) <==> b in q && b != q[p]
  {
    var r := Without(q, p);
    forall b ensures b in r <==> b in q && b != q[p] {
      if b in q && b != q[p] {
        var i :| 0 <= i < |q| && q[i] == b;
        assert r[if i < p then i else i - 1] == b;
      }
    }
  }

  ghost function IndexOf(q: seq<nat>, b: nat): (i: nat)
    requires b in q
    ensures i < |q| && q[i] == b
  {
    var i :| 0 <= i < |q| && q[i] == b;
    i
  }

  /** What the cells hold for a list q of buffers below n: cell n is the sentinel, whose
      `next` is the head (newest) and whose `prev` is the tail (oldest). */
  ghost function NextCell(q: seq<nat>, n: nat, c: nat): nat {
    if c == n then if q == [] then n else q[|q| - 1]
    else if c in q && IndexOf(q, c) + 1 < |q| then q[IndexOf(q, c) + 1]
    else n
  }

  ghost function PrevCell(q: seq<nat>, n: nat, c: nat): nat {
    if c == n then if q == [] then n else q[0]
    else if c in q && IndexOf(q, c) > 0 then q[IndexOf(q, c) - 1]
    else n
  }

  predicate IsList(q: seq<nat>, n: nat) {
    Distinct(q) && forall i :: 0 <= i < |q| ==> q[i] < n
  }

  lemma IndexUnique(q: seq<nat>, p: nat)
    requires Distinct(q) && p < |q|
    ensures IndexOf(q, q[p]) == p
  {
  }

  lemma {:induction false} DistinctBound(q: seq<nat>, n: nat)
    requires IsList(q, n)
    ensures |q| <= n
    decreases n
  {
    if q != [] {
      var p := if n - 1 in q then IndexOf(q, n - 1) else 0;
      WithoutDistinct(q, p);
      if n - 1 in q {
        forall i | 0 <= i < |Without(q, p)| ensures Without(q, p)[i] < n - 1 {
          assert Without(q, p)[i] in Without(q, p);
        }
        DistinctBound(Without(q, p), n - 1);
      } else {
        DistinctBound(q, n - 1);
      }
    }
  }

  /** How unlinking position p changes each `next` cell. */
  lemma UnlinkNext(q: seq<nat>, n: nat, p: nat, c: nat)
    requires IsList(q, n) && p < |q| && c <= n
    ensures var newer, older := NextCell(q, n, q[p]), PrevCell(q, n, q[p]);
            NextCell(Without(q, p), n, c) ==
            if c == q[p] then n
            else if c == n then if newer == n then older else NextCell(q, n, n)
            else if c == older then newer
            else NextCell(q, n, c)
  {
    WithoutDistinct(q, p);
    IndexUnique(q, p);
    var r := Without(q, p);
    if c in r {
      var i := IndexOf(q, c);
      IndexUnique(r, if i < p then i else i - 1);
      if p > 0 {
        IndexUnique(q, p - 1);
      }
    }
  }

  lemma UnlinkPrev(q: seq<nat>, n: nat, p: nat, c: nat)
    requires IsList(q, n) && p < |q| && c <= n
    ensures var newer, older := NextCell(q, n, q[p]), PrevCell(q, n, q[p]);
            PrevCell(Without(q, p), n, c) ==
            if c == q[p] then n
            else if c == n then if older == n then newer else PrevCell(q, n, n)
            else if c == newer then older
            else PrevCell(q, n, c)
  {
    WithoutDistinct(q, p);
    IndexUnique(q, p);
    var r := Without(q, p);
    if c in r {
      var i := IndexOf(q, c);
      IndexUnique(r, if i < p then i else i - 1);
      IndexUnique(q, i);
      if p + 1 < |q| {
        IndexUnique(q, p + 1);
      }
    }
  }

  lemma PushCells(q: seq<nat>, n: nat, b: nat, c: nat)
    requires IsList(q, n) && b < n && b !in q && c <= n
    ensures var head := NextCell(q, n, n);
            && NextCell(q + [b], n, c) ==
               (if c == n then b else if c == b then n else if c == head then b else NextCell(q, n, c))
            && PrevCell(q + [b], n, c) ==
               (if c == n then if head == n then b else PrevCell(q, n, n) else if c == b then head else PrevCell(q, n, c))
  {
    var r := q + [b];
    assert Distinct(r);
    IndexUnique(r, |q|);
    if c in q {
      var i := IndexOf(q, c);
      assert r[i] == c;
      IndexUnique(r, i);
      IndexUnique(q, |q| - 1);
    }
  }

  class Links {
    const n: nat
    const next: array<nat>
    const prev: array<nat>
    /** Buffers in the list, oldest first. */
    ghost var queue: seq<nat>

    ghost predicate Valid()
      reads this, next, prev
    {
      && next != prev && next.Length == prev.Length == n + 1
      && IsList(queue, n)
      && forall c :: 0 <= c <= n ==> next[c] == NextCell(queue, n, c) && prev[c] == PrevCell(queue, n, c)
    }

    /** SieveInitialize and LRUInitialize: every buffer, in order. */
    constructor (n: nat)
      requires n > 0
      ensures Valid() && fresh(next) && fresh(prev) && this.n == n
      ensures queue == seq(n, i => i)
    {
      this.n := n;
      next := new nat[n + 1](_ => n);
      prev := new nat[n + 1](_ => n);
      queue := seq(n, i => i);
      new;
      next[n] := n - 1;
      prev[n] := 0;
      var i := 0;
      while i < n
        invariant 0 <= i <= n
        invariant queue == seq(n, i => i) && IsList(queue, n)
        invariant next[n] == n - 1 && prev[n] == 0
        invariant forall c :: 0 <= c < i ==> next[c] == NextCell(queue, n, c) && prev[c] == PrevCell(queue, n, c)
      {
        next[i] := if i < n - 1 then i + 1 else n;
        prev[i] := if i > 0 then i - 1 else n;
        IndexUnique(queue, i);
        i := i + 1;
      }
    }

    /** The test both policies use for "already in the list". */
    method InList(b: nat) returns (r: bool)
      requires Valid() && b < n
      ensures r <==> b in queue
    {
      r := next[b] != n || prev[b] != n || next[n] == b;
      if b in queue {
        IndexUnique(queue, IndexOf(queue, b));
      }
    }

    /** Takes a buffer out of the list and clears its cells. */
    method Unlink(b: nat, ghost p: nat)
      requires Valid() && p < |queue| && queue[p] == b
      modifies this, next, prev
      ensures Valid() && queue == Without(old(queue), p)
    {
      ghost var q := queue;
      IndexUnique(q, p);
      var newer, older := next[b], prev[b];
      assert newer <= n && older <= n && newer != b && older != b && b < n;
      Relink(b, newer, older);
      queue := Without(q, p);
      WithoutDistinct(q, p);
      forall c | 0 <= c <= n ensures next[c] == NextCell(queue, n, c) && prev[c] == PrevCell(queue, n, c) {
        UnlinkNext(q, n, p, c);
        UnlinkPrev(q, n, p, c);
      }
    }

    /** Joins the neighbours of b and clears its cells. */
    method Relink(b: nat, newer: nat, older: nat)
      requires next != prev && next.Length == prev.Length == n + 1
      requires b < n && newer <= n && older <= n && newer != b && older != b
      modifies next, prev
      ensures forall c :: 0 <= c <= n ==>
                next[c] == if c == b then n
                           else if c == n then if newer == n then older else old(next[n])
                           else if c == older then newer else old(next[c])
      ensures forall c :: 0 <= c <= n ==>
                prev[c] == if c == b then n
                           else if c == n then if older == n then newer else old(prev[n])
                           else if c == newer then older else old(prev[c])
    {
      if newer == n {
        next[n] := older;
      } else {
        prev[newer] := older;
      }
      if older == n {
        prev[n] := newer;
      } else {
        next[older] := newer;
      }
      next[b] := n;
      prev[b] := n;
    }

    /** Puts a detached buffer at the head. */
    method PushHead(b: nat)
      requires Valid() && b < n && b !in queue
      modifies this, next, prev
      ensures Valid() && queue == old(queue) + [b]
    {
      ghost var q := queue;
      var oldHead := next[n];
      next[b] := n;
      prev[b] := oldHead;
      if oldHead != n {
        next[oldHead] := b;
      } else {
        prev[n] := b;
      }
      next[n] := b;
      queue := q + [b];
      forall c | 0 <= c <= n ensures next[c] == NextCell(queue, n, c) && prev[c] == PrevCell(queue, n, c) {
        PushCells(q, n, b, c);
      }
    }
  }
}
