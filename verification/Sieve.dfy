/** The SIEVE eviction policy: a queue in insertion order and a hand that sweeps from the
    oldest buffer to the newest (src/backend/storage/buffer/freelist.c). The methods run
    under the strategy lock; pins, header locks and usage counts are taken as still while one
    runs. */
module Sieve {
  import opened EvictionList

  /** What the hand finds at a buffer. */
  datatype Look = IsLocked | IsPinned | WasVisited | Evictable

  /** How SieveGetBuffer comes out: with a victim, with one of its two errors, or not at all. */
  datatype Outcome = Victim(b: nat) | NoUnpinned | EmptyQueue | Spins

  /** The queue read from position i onwards and round again. */
  function Rotated(q: seq<nat>, i: nat): seq<nat>
    requires i <= |q|
  {
    q[i..] + q[..i]
  }

  lemma RotatedApart(q: seq<nat>, i: nat)
    requires Distinct(q) && i <= |q|
    ensures Apart(Rotated(q, i))
  {
    var r := Rotated(q, i);
    forall k: nat | k < |r| ensures OnceAt(r, k) {
      forall j | 0 <= j < |r| && j != k ensures r[j] != r[k] {
        var a, b := if j < |q| - i then j + i else j - (|q| - i), if k < |q| - i then k + i else k - (|q| - i);
        assert r[j] == q[a] && r[k] == q[b] && a != b;
      }
    }
  }

  lemma RotatedOn(q: seq<nat>, i: nat)
    requires i < |q|
    ensures Rotated(q, if i + 1 < |q| then i + 1 else 0) == Rotated(q, i)[1..] + [Rotated(q, i)[0]]
  {
  }

  /** Index of the first buffer of r outside s, or |r|. */
  function FirstOutside(r: seq<nat>, s: set<nat>): (i: nat)
    ensures i <= |r| && (forall j :: 0 <= j < i ==> r[j] in s) && (i < |r| ==> r[i] !in s)
  {
    if r == [] || r[0] !in s then 0 else 1 + FirstOutside(r[1..], s)
  }

  /** Where SIEVE's victim stands in the queue read from the hand: the first buffer that is
      neither blocked, that is pinned or locked, nor visited, or, when every unblocked buffer is
      visited, the first unblocked one. |r| if all are blocked. */
  function VictimAt(r: seq<nat>, blocked: set<nat>, visited: set<nat>): nat {
    var i := FirstOutside(r, blocked + visited);
    if i < |r| then i else FirstOutside(r, blocked)
  }

  /** The buffers the hand passed over on its way to the victim. */
  function PassedOver(r: seq<nat>, blocked: set<nat>, visited: set<nat>): seq<nat> {
    r[..FirstOutside(r, blocked + visited)]
  }

  lemma FirstOutsideIs(r: seq<nat>, s: set<nat>, i: nat)
    requires i <= |r| && (forall j :: 0 <= j < i ==> r[j] in s) && (i < |r| ==> r[i] !in s)
    ensures FirstOutside(r, s) == i
  {
  }

  /** The visited buffers left by that sweep: those passed over lose their mark. */
  function Cleared(r: seq<nat>, blocked: set<nat>, visited: set<nat>): set<nat> {
    set b | b in visited && (b in blocked || b !in PassedOver(r, blocked, visited))
  }

  function Turned(r: seq<nat>): seq<nat>
    requires r != []
  {
    r[1..] + [r[0]]
  }

  /** The loop of SieveGetBuffer over the queue read from the hand: what it comes to, and the
      buffers still marked visited. A locked header is passed by without counting down; tries
      is the countdown of pinned buffers. After n locked headers in a row (idle counts them)
      every header is locked, nothing has changed, and the loop goes on like that. */
  function Sweep(r: seq<nat>, pinned: set<nat>, locked: set<nat>, visited: set<nat>, tries: nat, idle: nat, n: nat)
      : (Outcome, set<nat>)
    requires r != [] && idle < n
    decreases visited, tries, n - idle
  {
    if tries == 0 then (NoUnpinned, visited)
    else if r[0] in locked then
      if idle + 1 == n then (Spins, visited) else Sweep(Turned(r), pinned, locked, visited, tries, idle + 1, n)
    else if r[0] in pinned then Sweep(Turned(r), pinned, locked, visited, tries - 1, 0, n)
    else if r[0] in visited then Sweep(Turned(r), pinned, locked, visited - {r[0]}, n, 0, n)
    else (Victim(r[0]), visited)
  }

  /** The buffer at k is nowhere else. */
  predicate OnceAt(r: seq<nat>, k: nat)
    requires k < |r|
  {
    forall j :: 0 <= j < |r| && j != k ==> r[j] != r[k]
  }

  predicate Apart(r: seq<nat>) {
    forall k: nat :: k < |r| ==> OnceAt(r, k)
  }

  predicate HeadOnce(r: seq<nat>) {
    r != [] && forall j :: 1 <= j < |r| ==> r[j] != r[0]
  }

  lemma TurnedApart(r: seq<nat>)
    requires r != [] && Apart(r)
    ensures HeadOnce(r) && Apart(Turned(r))
  {
    assert OnceAt(r, 0);
    forall k: nat | k < |r| ensures OnceAt(Turned(r), k) {
      assert OnceAt(r, if k + 1 < |r| then k + 1 else 0);
    }
  }

  /** What the sweep goes on with. */
  datatype Sweeping = Sweeping(r: seq<nat>, visited: set<nat>, tries: nat, idle: nat)

  ghost predicate Going(g: Sweeping, pinned: set<nat>, locked: set<nat>, n: nat, goal: (Outcome, set<nat>)) {
    g.r != [] && g.tries > 0 && g.idle < n && Sweep(g.r, pinned, locked, g.visited, g.tries, g.idle, n) == goal
  }

  function LookAt(b: nat, pinned: set<nat>, locked: set<nat>, visited: set<nat>): Look {
    if b in locked then IsLocked else if b in pinned then IsPinned else if b in visited then WasVisited else Evictable
  }

  /** The state after a buffer has been passed by. */
  function Passed(g: Sweeping, look: Look, n: nat): Sweeping
    requires g.r != []
  {
    match look
    case IsLocked => g.(r := Turned(g.r), idle := g.idle + 1)
    case IsPinned => g.(r := Turned(g.r), tries := if g.tries > 0 then g.tries - 1 else 0, idle := 0)
    case WasVisited => Sweeping(Turned(g.r), g.visited - {g.r[0]}, n, 0)
    case Evictable => g
  }

  /** One turn of the sweep: it ends, or goes on with less before it. */
  lemma SweepTurn(g: Sweeping, pinned: set<nat>, locked: set<nat>, n: nat, goal: (Outcome, set<nat>))
    requires Going(g, pinned, locked, n, goal)
    ensures var look := LookAt(g.r[0], pinned, locked, g.visited);
            var h := Passed(g, look, n);
            && (look.Evictable? ==> goal == (Victim(g.r[0]), g.visited))
            && (look.IsLocked? && g.idle + 1 == n ==> goal == (Spins, g.visited))
            && (look.IsPinned? && g.tries == 1 ==> goal == (NoUnpinned, g.visited))
            && (!look.Evictable? && h.idle < n && h.tries > 0 ==> Going(h, pinned, locked, n, goal))
            && (look.WasVisited? ==> h.visited < g.visited)
  {
    assert Sweep(Turned(g.r), pinned, locked, g.visited, 0, 0, n) == (NoUnpinned, g.visited);
  }

  /** With everything blocked, but not everything locked, the countdown runs out. */
  lemma {:induction false} SweepFails(r: seq<nat>, pinned: set<nat>, locked: set<nat>, visited: set<nat>,
                                      tries: nat, idle: nat, n: nat)
    requires Apart(r) && |r| <= n && forall b :: b in r ==> b in pinned + locked
    requires FirstOutside(r, locked) < |r| && idle + FirstOutside(r, locked) < n
    ensures Sweep(r, pinned, locked, visited, tries, idle, n) == (NoUnpinned, visited)
    decreases tries, n - idle
  {
    if tries > 0 {
      TurnedApart(r);
      if r[0] in locked {
        TurnedOutside(r, locked, locked);
        SweepFails(Turned(r), pinned, locked, visited, tries, idle + 1, n);
      } else {
        assert r[0] in r && Turned(r)[|r| - 1] == r[0];
        SweepFails(Turned(r), pinned, locked, visited, tries - 1, 0, n);
      }
    }
  }

  /** With everything locked the loop never ends. */
  lemma {:induction false} SweepSpins(r: seq<nat>, pinned: set<nat>, locked: set<nat>, visited: set<nat>,
                                      tries: nat, idle: nat, n: nat)
    requires r != [] && idle < n && tries > 0 && forall b :: b in r ==> b in locked
    ensures Sweep(r, pinned, locked, visited, tries, idle, n) == (Spins, visited)
    decreases n - idle
  {
    if idle + 1 < n {
      SweepSpins(Turned(r), pinned, locked, visited, tries, idle + 1, n);
    }
  }

  lemma TurnedOutside(r: seq<nat>, s: set<nat>, s': set<nat>)
    requires HeadOnce(r) && r[0] in s && s - {r[0]} <= s' <= s
    ensures var i := FirstOutside(r, s);
            FirstOutside(Turned(r), s') == if i < |r| || r[0] !in s' then i - 1 else |r|
  {
    var i := FirstOutside(r, s);
    FirstOutsideIs(Turned(r), s', if i < |r| || r[0] !in s' then i - 1 else |r|);
  }

  /** Passing the first buffer only takes it off the list of those passed over. */
  lemma TurnedPassed(r: seq<nat>, blocked: set<nat>, visited: set<nat>, b: nat)
    requires HeadOnce(r) && r[0] in blocked + visited
    ensures var visited' := if r[0] in blocked then visited else visited - {r[0]};
            b in PassedOver(r, blocked, visited) <==> b in PassedOver(Turned(r), blocked, visited') || b == r[0]
  {
    var visited' := if r[0] in blocked then visited else visited - {r[0]};
    TurnedOutside(r, blocked + visited, blocked + visited');
    var i := FirstOutside(r, blocked + visited);
    var i' := FirstOutside(Turned(r), blocked + visited');
    assert r[..i] == [r[0]] + r[1..i];
    if i' == i - 1 {
      assert Turned(r)[..i'] == r[1..i];
    } else {
      assert Turned(r)[..i'] == Turned(r) && r[..i] == r;
    }
  }

  lemma TurnedCleared(r: seq<nat>, blocked: set<nat>, visited: set<nat>)
    requires HeadOnce(r) && r[0] in blocked + visited
    ensures var visited' := if r[0] in blocked then visited else visited - {r[0]};
            Cleared(Turned(r), blocked, visited') == Cleared(r, blocked, visited)
  {
    var visited' := if r[0] in blocked then visited else visited - {r[0]};
    forall b ensures b in Cleared(Turned(r), blocked, visited') <==> b in Cleared(r, blocked, visited) {
      TurnedPassed(r, blocked, visited, b);
    }
  }

  /** The specified outcome of a sweep over a queue that is not all blocked. */
  function Found(r: seq<nat>, blocked: set<nat>, visited: set<nat>): (Outcome, set<nat>)
    requires FirstOutside(r, blocked) < |r|
  {
    var v := VictimAt(r, blocked, visited);
    (Victim(r[v]), Cleared(r, blocked, visited))
  }

  lemma VictimAfterBlocked(r: seq<nat>, blocked: set<nat>, visited: set<nat>)
    requires HeadOnce(r) && FirstOutside(r, blocked) < |r| && r[0] in blocked
    ensures FirstOutside(Turned(r), blocked) == FirstOutside(r, blocked) - 1
    ensures VictimAt(Turned(r), blocked, visited) == VictimAt(r, blocked, visited) - 1
  {
    TurnedOutside(r, blocked + visited, blocked + visited);
    TurnedOutside(r, blocked, blocked);
  }

  /** Passing a buffer, blocked or visited, does not change the outcome. */
  lemma FoundAfterBlocked(r: seq<nat>, blocked: set<nat>, visited: set<nat>)
    requires HeadOnce(r) && FirstOutside(r, blocked) < |r| && r[0] in blocked
    ensures FirstOutside(Turned(r), blocked) == FirstOutside(r, blocked) - 1
    ensures Found(Turned(r), blocked, visited) == Found(r, blocked, visited)
  {
    VictimAfterBlocked(r, blocked, visited);
    TurnedCleared(r, blocked, visited);
    var v := VictimAt(r, blocked, visited);
    assert v < |r| && Turned(r)[v - 1] == r[v];
  }

  lemma FoundAfterVisited(r: seq<nat>, blocked: set<nat>, visited: set<nat>)
    requires HeadOnce(r) && r[0] !in blocked && r[0] in visited
    ensures FirstOutside(r, blocked) == 0 && FirstOutside(Turned(r), blocked) < |r|
    ensures Found(Turned(r), blocked, visited - {r[0]}) == Found(r, blocked, visited)
  {
    TurnedOutside(r, blocked + visited, blocked + (visited - {r[0]}));
    TurnedCleared(r, blocked, visited);
    assert Turned(r)[|r| - 1] !in blocked;
  }

  lemma FoundAtOnce(r: seq<nat>, blocked: set<nat>, visited: set<nat>)
    requires r != [] && r[0] !in blocked + visited
    ensures FirstOutside(r, blocked) == 0 && Found(r, blocked, visited) == (Victim(r[0]), visited)
  {
    assert PassedOver(r, blocked, visited) == [];
    assert Cleared(r, blocked, visited) == visited;
  }

  /** With some buffer unblocked the sweep ends at the specified victim. */
  lemma {:induction false} SweepFinds(r: seq<nat>, pinned: set<nat>, locked: set<nat>, visited: set<nat>,
                                      tries: nat, idle: nat, n: nat)
    requires Apart(r) && |r| <= n && FirstOutside(r, pinned + locked) < |r|
    requires tries > FirstOutside(r, pinned + locked) && idle + FirstOutside(r, pinned + locked) < n
    ensures Sweep(r, pinned, locked, visited, tries, idle, n) == Found(r, pinned + locked, visited)
    decreases visited, tries, n - idle
  {
    var blocked := pinned + locked;
    TurnedApart(r);
    if r[0] in blocked {
      FoundAfterBlocked(r, blocked, visited);
      if r[0] in locked {
        SweepFinds(Turned(r), pinned, locked, visited, tries, idle + 1, n);
      } else {
        SweepFinds(Turned(r), pinned, locked, visited, tries - 1, 0, n);
      }
    } else if r[0] in visited {
      FoundAfterVisited(r, blocked, visited);
      SweepFinds(Turned(r), pinned, locked, visited - {r[0]}, n, 0, n);
    } else {
      FoundAtOnce(r, blocked, visited);
    }
  }

  /** What a sweep comes to, said without it. It finds a victim if and only if some buffer is
      neither pinned nor locked; it goes on for ever if and only if every header is locked. */
  lemma SweepOutcome(r: seq<nat>, pinned: set<nat>, locked: set<nat>, visited: set<nat>, n: nat)
    requires r != [] && Apart(r) && |r| <= n
    ensures Sweep(r, pinned, locked, visited, n, 0, n) ==
            if FirstOutside(r, pinned + locked) < |r| then Found(r, pinned + locked, visited)
            else if FirstOutside(r, locked) < |r| then (NoUnpinned, visited)
            else (Spins, visited)
  {
    if FirstOutside(r, pinned + locked) < |r| {
      SweepFinds(r, pinned, locked, visited, n, 0, n);
    } else if FirstOutside(r, locked) < |r| {
      SweepFails(r, pinned, locked, visited, n, 0, n);
    } else {
      SweepSpins(r, pinned, locked, visited, n, 0, n);
    }
  }

  /** The hand after position p of q is unlinked: its newer neighbour, else its older. */
  function HandAfterUnlink(q: seq<nat>, n: nat, p: nat, hand: nat): nat
    requires p < |q|
  {
    if hand != q[p] then hand
    else if p + 1 < |q| then q[p + 1]
    else if p > 0 then q[p - 1]
    else n
  }

  /** A visited buffer goes only when every unblocked buffer is visited. */
  lemma SecondChance(r: seq<nat>, blocked: set<nat>, visited: set<nat>, b: nat)
    requires VictimAt(r, blocked, visited) < |r| && r[VictimAt(r, blocked, visited)] in visited
    requires b in r && b !in blocked
    ensures b in visited
  {
    var j :| 0 <= j < |r| && r[j] == b;
    assert FirstOutside(r, blocked + visited) == |r|;
  }

  /** What the hand will meet after position p is evicted, if the sweep just goes on. */
  function Continued(q: seq<nat>, p: nat): seq<nat>
    requires p < |q|
  {
    q[p + 1..] + q[..p]
  }

  /** What it meets with the hand where SieveUnlinkAndAdvance leaves it. */
  ghost function Resumed(q: seq<nat>, n: nat, p: nat): seq<nat>
    requires IsList(q, n) && p < |q|
  {
    var r, hand := Without(q, p), HandAfterUnlink(q, n, p, q[p]);
    if hand in r then Rotated(r, IndexOf(r, hand)) else []
  }

  /** The sweep goes on where it was after an eviction exactly when the victim was not the
      newest of three or more buffers. At the newest the hand steps back one place
      instead of wrapping to the oldest. */
  lemma SweepGoesOnIff(q: seq<nat>, n: nat, p: nat)
    requires IsList(q, n) && p < |q|
    ensures Resumed(q, n, p) == Continued(q, p) <==> p + 1 < |q| || |q| <= 2
  {
    var r := Without(q, p);
    WithoutDistinct(q, p);
    if p + 1 < |q| {
      IndexUnique(r, p);
      assert r[p] == q[p + 1];
    } else if p > 0 {
      IndexUnique(r, p - 1);
      assert r[p - 1] == q[p - 1];
      assert Resumed(q, n, p)[0] == q[p - 1] && Continued(q, p)[0] == q[0];
    } else {
      assert r == [] && Continued(q, p) == [];
    }
  }

  class SievePolicy {
    const links: Links
    const refcount: array<nat>
    const usage: array<nat>
    const locks: array<bool>
    var hand: nat

    ghost predicate Valid()
      reads this, links, links.next, links.prev
    {
      && links.Valid()
      && refcount.Length == usage.Length == locks.Length == links.n
      && refcount != usage && refcount != links.next && refcount != links.prev
      && usage != links.next && usage != links.prev
      && if links.queue == [] then hand == links.n else hand in links.queue
    }

    ghost function Pinned(): set<nat>
      requires refcount.Length == links.n
      reads refcount
    {
      set b | 0 <= b < links.n && refcount[b] != 0
    }

    /** Buffers whose header another backend has locked. */
    ghost function Locked(): set<nat>
      requires locks.Length == links.n
      reads locks
    {
      set b | 0 <= b < links.n && locks[b]
    }

    ghost function Visited(): set<nat>
      requires usage.Length == links.n
      reads usage
    {
      set b | 0 <= b < links.n && usage[b] != 0
    }

    /** The queue as the hand will meet it. */
    ghost function Ahead(): seq<nat>
      requires Valid()
      reads this, links, links.next, links.prev
    {
      if links.queue == [] then [] else Rotated(links.queue, IndexOf(links.queue, hand))
    }

    /** SieveInitialize */
    constructor (n: nat)
      requires n > 0
      ensures Valid() && links.n == n && links.queue == seq(n, i => i) && hand == 0
      ensures fresh(links) && fresh(links.next) && fresh(links.prev) && fresh(refcount) && fresh(usage) && fresh(locks)
    {
      var l := new Links(n);
      links := l;
      refcount := new nat[n](_ => 0);
      usage := new nat[n](_ => 0);
      locks := new bool[n](_ => false);
      hand := 0;
      new;
      assert links.queue[0] == 0;
    }

    /** SieveAdvanceHand: towards newer buffers, from the newest back to the oldest. */
    method AdvanceHand()
      requires Valid() && links.queue != []
      modifies this`hand
      ensures Valid()
      ensures Ahead() == old(Ahead())[1..] + [old(Ahead())[0]]
    {
      ghost var q, i := links.queue, IndexOf(links.queue, hand);
      IndexUnique(q, i);
      var next := links.next[hand];
      if next == links.n {
        next := links.prev[links.n];
      }
      hand := next;
      ghost var j := if i + 1 < |q| then i + 1 else 0;
      IndexUnique(q, j);
      RotatedOn(q, i);
      assert hand == q[j] && links.queue == q;
    }

    /** SieveUnlinkAndAdvance */
    method UnlinkAndAdvance(b: nat, ghost p: nat)
      requires Valid() && p < |links.queue| && links.queue[p] == b
      modifies this`hand, links, links.next, links.prev
      ensures Valid()
      ensures links.queue == Without(old(links.queue), p)
      ensures hand == HandAfterUnlink(old(links.queue), links.n, p, old(hand))
    {
      ghost var q := links.queue;
      IndexUnique(q, p);
      if hand == b {
        var newHand := links.next[b];
        if newHand == links.n {
          newHand := links.prev[b];
        }
        hand := newHand;
      }
      links.Unlink(b, p);
      WithoutDistinct(q, p);
    }

    /** SieveNotifyInsert: a loaded buffer goes to the head of the queue. */
    method NotifyInsert(b: nat)
      requires Valid() && b < links.n
      modifies this`hand, links, links.next, links.prev
      ensures Valid()
      ensures var q := old(links.queue);
              if b in q then
                var p := IndexOf(q, b);
                && links.queue == Without(q, p) + [b]
                && hand == if |q| == 1 then b else HandAfterUnlink(q, links.n, p, old(hand))
              else links.queue == q + [b] && hand == if q == [] then b else old(hand)
    {
      ghost var q := links.queue;
      var present := links.InList(b);
      if present {
        UnlinkAndAdvance(b, IndexOf(q, b));
        WithoutDistinct(q, IndexOf(q, b));
      }
      links.PushHead(b);
      if hand == links.n {
        hand := b;
      }
      assert b == links.queue[|links.queue| - 1];
    }

    lemma HandIsFirst()
      requires Valid() && links.queue != []
      ensures Ahead() != [] && Ahead()[0] == hand && hand < links.n
    {
    }

    /** One turn of SieveGetBuffer's loop, short of the claim. */
    method Examine() returns (r: Look)
      requires Valid() && links.queue != []
      modifies this`hand, usage
      ensures Valid()
      ensures r == if old(hand) in old(Locked()) then IsLocked else if old(hand) in old(Pinned()) then IsPinned
                   else if old(hand) in old(Visited()) then WasVisited else Evictable
      ensures old(Ahead()) != [] && old(Ahead())[0] == old(hand)
      ensures Ahead() == if r.Evictable? then old(Ahead()) else Turned(old(Ahead()))
      ensures r.Evictable? ==> hand == old(hand)
      ensures Visited() == if r.WasVisited? then old(Visited()) - {old(hand)} else old(Visited())
      ensures Pinned() == old(Pinned()) && Locked() == old(Locked())
    {
      ghost var now := Visited();
      HandIsFirst();
      if locks[hand] {
        AdvanceHand();
        r := IsLocked;
      } else if refcount[hand] != 0 {
        AdvanceHand();
        r := IsPinned;
      } else if usage[hand] != 0 {
        usage[hand] := 0;
        assert Visited() == now - {hand};
        AdvanceHand();
        r := WasVisited;
      } else {
        r := Evictable;
      }
    }

    /** The sweep of SieveGetBuffer up to the claim: passes by locked headers, skips pinned
        buffers, clears visited ones, and fails after NBuffers pinned buffers with no visited
        one between. The count of locked headers in a row is not in the C code, which goes on
        where Spins is returned. */
    method FindVictim() returns (found: Outcome)
      requires Valid() && links.queue != []
      modifies this`hand, usage
      ensures Valid()
      ensures var (outcome, left) := Sweep(old(Ahead()), old(Pinned()), old(Locked()), old(Visited()), links.n, 0, links.n);
              found == outcome && (found.Victim? ==> hand == found.b) && Visited() == left
    {
      AheadFits();
      ghost var goal := Sweep(Ahead(), Pinned(), Locked(), Visited(), links.n, 0, links.n);
      found := SweepLoop(Sweeping(Ahead(), Visited(), links.n, 0), goal);
    }

    /** The hand stands where the sweep is. */
    ghost predicate At(g: Sweeping)
      requires Valid()
      reads this, links, links.next, links.prev, usage
    {
      links.queue != [] && g.r == Ahead() && g.visited == Visited()
    }

    /** Examine, in terms of the sweep. */
    method PassBy(ghost g: Sweeping, ghost pinned: set<nat>, ghost locked: set<nat>) returns (look: Look, ghost h: Sweeping)
      requires Valid() && g.r != [] && At(g) && pinned == Pinned() && locked == Locked()
      modifies this`hand, usage
      ensures Valid() && pinned == Pinned() && locked == Locked()
      ensures look == LookAt(g.r[0], pinned, locked, g.visited) && h == Passed(g, look, links.n) && At(h)
      ensures look.Evictable? ==> hand == g.r[0]
    {
      look := Examine();
      h := Passed(g, look, links.n);
    }

    method SweepLoop(ghost start: Sweeping, ghost goal: (Outcome, set<nat>)) returns (found: Outcome)
      requires Valid() && At(start) && start.tries == links.n && start.idle == 0
      requires Going(start, Pinned(), Locked(), links.n, goal)
      modifies this`hand, usage
      ensures Valid() && found == goal.0 && (found.Victim? ==> hand == found.b) && Visited() == goal.1
    {
      ghost var g, pinned, locked := start, Pinned(), Locked();
      var trycounter, idle := links.n, 0;
      while true
        invariant Valid() && At(g) && g.tries == trycounter && g.idle == idle
        invariant pinned == Pinned() && locked == Locked() && Going(g, pinned, locked, links.n, goal)
        decreases g.visited, trycounter, links.n - idle
      {
        SweepTurn(g, pinned, locked, links.n, goal);
        var look;
        look, g := PassBy(g, pinned, locked);
        match look
        case IsLocked =>
          idle := idle + 1;
          if idle == links.n {
            return Spins;
          }
        case IsPinned =>
          trycounter, idle := trycounter - 1, 0;
          if trycounter == 0 {
            return NoUnpinned;
          }
        case WasVisited =>
          trycounter, idle := links.n, 0;
        case Evictable =>
          return Victim(hand);
      }
    }

    lemma AheadFits()
      requires Valid() && links.queue != []
      ensures Apart(Ahead()) && 0 < |Ahead()| == |links.queue| <= links.n
    {
      DistinctBound(links.queue, links.n);
      RotatedApart(links.queue, IndexOf(links.queue, hand));
    }

    /** Pins the buffer under the hand and takes it off the queue. */
    method Claim() returns (candidate: nat)
      requires Valid() && links.queue != []
      modifies this`hand, refcount, links, links.next, links.prev
      ensures Valid() && candidate == old(hand)
      ensures Pinned() == old(Pinned()) + {candidate}
      ensures var q := old(links.queue);
              && candidate in q
              && links.queue == Without(q, IndexOf(q, candidate))
              && hand == HandAfterUnlink(q, links.n, IndexOf(q, candidate), candidate)
    {
      candidate := hand;
      ghost var p := IndexOf(links.queue, candidate);
      refcount[candidate] := refcount[candidate] + 1;
      UnlinkAndAdvance(candidate, p);
    }

    /** SieveGetBuffer. There is a victim if and only if some queued buffer is neither pinned
        nor locked. Otherwise the call fails on an empty queue or on one with an unlocked
        header, and never returns when every header is locked. */
    method GetBuffer() returns (outcome: Outcome)
      requires Valid()
      modifies this`hand, usage, refcount, links, links.next, links.prev
      ensures Valid()
      ensures outcome.EmptyQueue? <==> old(Ahead()) == []
      ensures outcome.Victim? <==> exists b :: b in old(Ahead()) && b !in old(Pinned()) && b !in old(Locked())
      ensures outcome.Spins? <==> old(Ahead()) != [] && forall b :: b in old(Ahead()) ==> b in old(Locked())
      ensures !outcome.Victim? ==>
                links.queue == old(links.queue) && Visited() == old(Visited()) && Pinned() == old(Pinned())
      ensures outcome.Victim? ==>
                var r, blocked, visited := old(Ahead()), old(Pinned()) + old(Locked()), old(Visited());
                && VictimAt(r, blocked, visited) < |r| && outcome.b == r[VictimAt(r, blocked, visited)]
                && Visited() == Cleared(r, blocked, visited) && Pinned() == old(Pinned()) + {outcome.b}
      ensures outcome.Victim? ==>
                var q := old(links.queue);
                && outcome.b in q
                && links.queue == Without(q, IndexOf(q, outcome.b))
                && hand == HandAfterUnlink(q, links.n, IndexOf(q, outcome.b), outcome.b)
    {
      if hand == links.n {
        return EmptyQueue;
      }
      AheadFits();
      ghost var r, blocked := Ahead(), Pinned() + Locked();
      SweepOutcome(r, Pinned(), Locked(), Visited(), links.n);
      if FirstOutside(r, blocked) < |r| {
        assert r[FirstOutside(r, blocked)] in r;
      }
      if FirstOutside(r, Locked()) < |r| {
        assert r[FirstOutside(r, Locked())] in r;
      }
      outcome := FindVictim();
      if outcome.Victim? {
        var candidate := Claim();
      }
    }
  }
}
