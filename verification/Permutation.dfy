/** Orders of positions: permutations of 0..n-1 and what reading a list in such an order does. */
module Permutation {

  /** A permutation of 0..n-1, written without multisets: every value in range, none twice. */
  ghost predicate IsPermutation(order: seq<nat>, n: nat) {
    |order| == n && (forall k :: 0 <= k < n ==> order[k] < n) && Distinct(order)
  }

  ghost predicate Distinct<T>(a: seq<T>) {
    forall k, l :: 0 <= k < l < |a| ==> a[k] != a[l]
  }

  lemma {:induction false} SameMultisetDistinct<T>(a: seq<T>, b: seq<T>)
    requires multiset(a) == multiset(b) && Distinct(a)
    ensures Distinct(b)
  {
    DistinctCounts(a);
    forall k, l | 0 <= k < l < |b| ensures b[k] != b[l] {
      assert b[l] in multiset(a);
      if b[k] == b[l] { CountedTwice(b, k, l); }
    }
  }

  lemma CountedTwice<T>(b: seq<T>, k: nat, l: nat)
    requires k < l < |b| && b[k] == b[l]
    ensures multiset(b)[b[l]] >= 2
  {
    assert b == b[..l] + [b[l]] + b[l + 1..] && b[..l][k] == b[l];
  }

  lemma {:induction false} DistinctCounts<T>(a: seq<T>)
    requires Distinct(a)
    ensures forall x :: x in a ==> multiset(a)[x] == 1
  {
    if a != [] {
      DistinctCounts(a[1..]);
      assert a == [a[0]] + a[1..];
      assert a[0] !in a[1..];
    }
  }

  function Reordered<T>(base: seq<T>, order: seq<nat>): (out: seq<T>)
    requires IsPermutation(order, |base|)
  {
    seq(|base|, k requires 0 <= k < |base| => base[order[k]])
  }

  lemma {:induction false} ReorderedPermutes<T>(base: seq<T>, order: seq<nat>)
    requires IsPermutation(order, |base|)
    ensures multiset(Reordered(base, order)) == multiset(base)
  {
    if |base| > 0 {
      var n := |base| - 1;
      var k := PositionOf(order, n);
      var rest := order[..k] + order[k + 1..];
      assert order == order[..k] + [n] + order[k + 1..];
      forall l | 0 <= l < n ensures rest[l] < n { assert rest[l] == order[if l < k then l else l + 1]; }
      ReorderedPermutes(base[..n], rest);
      var out := Reordered(base, order);
      assert Reordered(base[..n], rest) == out[..k] + out[k + 1..];
      assert out == out[..k] + [base[n]] + out[k + 1..];
      assert base == base[..n] + [base[n]];
    }
  }

  /** A permutation contains its largest value (by counting). */
  lemma {:induction false} PositionOf(order: seq<nat>, n: nat) returns (k: nat)
    requires IsPermutation(order, n + 1)
    ensures k <= n && order[k] == n
  {
    if n !in order {
      forall l | 0 <= l <= n ensures order[l] < n { assert order[l] in order; }
      Pigeonhole(order, n);
    }
    k :| 0 <= k < |order| && order[k] == n;
  }

  lemma {:induction false} Pigeonhole(order: seq<nat>, n: nat)
    requires Distinct(order) && forall k :: 0 <= k < |order| ==> order[k] < n
    ensures |order| <= n
    decreases n
  {
    if order != [] {
      assert order[0] < n;
      if n - 1 in order {
        var k :| 0 <= k < |order| && order[k] == n - 1;
        Pigeonhole(order[..k] + order[k + 1..], n - 1);
      } else {
        forall k | 0 <= k < |order| ensures order[k] < n - 1 { assert order[k] in order; }
        Pigeonhole(order, n - 1);
      }
    }
  }
}
