/** Sequences up to order: picking entries by a list of positions. */
module Bags {
  function Upto(n: nat): (r: seq<nat>)
    ensures |r| == n
  {
    seq(n, i requires 0 <= i < n => i)
  }

  /** Each of 0, ..., n - 1 once. */
  predicate Permutation(order: seq<nat>, n: nat) {
    && |order| == n && (forall i :: 0 <= i < n ==> order[i] < n)
    && multiset(order) == multiset(Upto(n))
  }

  function Pick<T>(es: seq<T>, order: seq<nat>): (r: seq<T>)
    requires forall i :: 0 <= i < |order| ==> order[i] < |es|
    ensures |r| == |order|
  {
    seq(|order|, i requires 0 <= i < |order| => es[order[i]])
  }

  lemma Extract<T>(a: seq<T>, j: nat)
    requires j < |a|
    ensures multiset(a) == multiset(a[..j] + a[j + 1..]) + multiset{a[j]}
  {
    assert a == a[..j] + [a[j]] + a[j + 1..];
  }

  lemma SameRest<T>(a: seq<T>, b: seq<T>, j: nat)
    requires a != [] && j < |b| && b[j] == a[0] && multiset(a) == multiset(b)
    ensures multiset(a[1..]) == multiset(b[..j] + b[j + 1..])
  {
    Extract(a, 0);
    Extract(b, j);
    assert a[..0] + a[1..] == a[1..];
    assert multiset(a[1..]) == multiset(a) - multiset{a[0]};
    assert multiset(b[..j] + b[j + 1..]) == multiset(b) - multiset{a[0]};
  }

  lemma PickFirst<T>(es: seq<T>, a: seq<nat>)
    requires a != [] && forall i :: 0 <= i < |a| ==> a[i] < |es|
    ensures Pick(es, a) == [es[a[0]]] + Pick(es, a[1..])
  {
  }

  lemma PickExtract<T>(es: seq<T>, a: seq<nat>, j: nat)
    requires j < |a| && forall i :: 0 <= i < |a| ==> a[i] < |es|
    ensures multiset(Pick(es, a)) == multiset(Pick(es, a[..j] + a[j + 1..])) + multiset{es[a[j]]}
  {
    var p := Pick(es, a);
    Extract(p, j);
    assert p[..j] + p[j + 1..] == Pick(es, a[..j] + a[j + 1..]);
  }

  /** What is picked does not depend on the order of picking. */
  lemma {:induction false} PickSameBag<T>(es: seq<T>, a: seq<nat>, b: seq<nat>)
    requires (forall i :: 0 <= i < |a| ==> a[i] < |es|) && (forall i :: 0 <= i < |b| ==> b[i] < |es|)
    requires multiset(a) == multiset(b)
    ensures multiset(Pick(es, a)) == multiset(Pick(es, b))
    decreases |a|
  {
    if a == [] {
      assert |multiset(b)| == 0;
    } else {
      assert a[0] in multiset(b);
      var j :| 0 <= j < |b| && b[j] == a[0];
      var rest := b[..j] + b[j + 1..];
      SameRest(a, b, j);
      PickSameBag(es, a[1..], rest);
      PickFirst(es, a);
      PickExtract(es, b, j);
    }
  }

  lemma PermutedBag<T>(es: seq<T>, order: seq<nat>)
    requires Permutation(order, |es|)
    ensures multiset(Pick(es, order)) == multiset(es)
  {
    PickSameBag(es, order, Upto(|es|));
    assert Pick(es, Upto(|es|)) == es;
  }
}
