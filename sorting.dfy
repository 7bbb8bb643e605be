/** Sorting rows by a numeric key, as `sorted(..., key=...)` and `DataFrame.sort_values` do.
    The sort is described by the order in which it lists the original positions: a
    permutation of `0..n-1` under which the keys do not decrease. Equal keys keep their
    original order, which is what Python's `sorted` guarantees. */
module Sorting {

  /** The positions `0..n-1` in order. */
  function Range(n: nat): (r: seq<nat>)
    ensures |r| == n
    ensures forall k :: 0 <= k < n ==> r[k] == k
  {
    if n == 0 then [] else Range(n - 1) + [n - 1]
  }

  /** Every listed position is a position of `keys`. */
  ghost predicate InRange(keys: seq<real>, order: seq<nat>) {
    forall k :: 0 <= k < |order| ==> order[k] < |keys|
  }

  /** The keys, read in the listed order, do not decrease. */
  ghost predicate SortedBy(keys: seq<real>, order: seq<nat>)
    requires InRange(keys, order)
  {
    forall a, b :: 0 <= a < b < |order| ==> keys[order[a]] <= keys[order[b]]
  }

  /** Positions with equal keys are listed in their original order. */
  ghost predicate Stable(keys: seq<real>, order: seq<nat>)
    requires InRange(keys, order)
  {
    forall a, b :: 0 <= a < b < |order| && keys[order[a]] == keys[order[b]] ==> order[a] < order[b]
  }

  /** `order` lists every position of `keys` exactly once. */
  ghost predicate IsPermutation(keys: seq<real>, order: seq<nat>) {
    multiset(order) == multiset(Range(|keys|))
  }

  /** Position `i` placed after every listed position whose key is not greater than its own. */
  function Insert(keys: seq<real>, order: seq<nat>, i: nat): (r: seq<nat>)
    requires i < |keys| && InRange(keys, order)
    ensures |r| == |order| + 1 && InRange(keys, r)
    ensures multiset(r) == multiset(order) + multiset{i}
  {
    if |order| == 0 then [i]
    else if keys[i] < keys[order[0]] then [i] + order
    else
      var rest := Insert(keys, order[1..], i);
      assert order == [order[0]] + order[1..];
      [order[0]] + rest
  }

  /** Inserting a position whose key is at least `low` keeps every key at least `low`. */
  lemma {:induction false} InsertKeepsLowerBound(keys: seq<real>, order: seq<nat>, i: nat, low: real)
    requires i < |keys| && InRange(keys, order) && low <= keys[i]
    requires forall k :: 0 <= k < |order| ==> low <= keys[order[k]]
    ensures forall k :: 0 <= k < |order| + 1 ==> low <= keys[Insert(keys, order, i)[k]]
    decreases |order|
  {
    if |order| > 0 && keys[order[0]] <= keys[i] {
      InsertKeepsLowerBound(keys, order[1..], i, low);
    }
  }

  /** Inserting a position later than `first`, into positions that come after `first`
      whenever their key equals that of `first`, keeps that property. */
  lemma {:induction false} InsertKeepsLaterTies(keys: seq<real>, order: seq<nat>, i: nat, first: nat)
    requires i < |keys| && InRange(keys, order) && first < |keys| && first < i
    requires forall k :: 0 <= k < |order| && keys[order[k]] == keys[first] ==> first < order[k]
    ensures forall k :: 0 <= k < |order| + 1 && keys[Insert(keys, order, i)[k]] == keys[first] ==>
      first < Insert(keys, order, i)[k]
    decreases |order|
  {
    if |order| > 0 && keys[order[0]] <= keys[i] {
      InsertKeepsLaterTies(keys, order[1..], i, first);
    }
  }

  lemma {:induction false} InsertSorted(keys: seq<real>, order: seq<nat>, i: nat)
    requires i < |keys| && InRange(keys, order) && SortedBy(keys, order)
    ensures SortedBy(keys, Insert(keys, order, i))
    decreases |order|
  {
    if |order| > 0 && keys[order[0]] <= keys[i] {
      var rest := order[1..];
      InsertSorted(keys, rest, i);
      InsertKeepsLowerBound(keys, rest, i, keys[order[0]]);
    }
  }

  lemma {:induction false} InsertStable(keys: seq<real>, order: seq<nat>, i: nat)
    requires i < |keys| && InRange(keys, order) && SortedBy(keys, order) && Stable(keys, order)
    requires forall k :: 0 <= k < |order| ==> order[k] < i
    ensures Stable(keys, Insert(keys, order, i))
    decreases |order|
  {
    var r := Insert(keys, order, i);
    if |order| > 0 {
      var rest := order[1..];
      if keys[i] < keys[order[0]] {
        forall b | 1 <= b < |r| ensures keys[r[0]] != keys[r[b]] {
          assert r[b] == order[b - 1];
        }
      } else {
        InsertStable(keys, rest, i);
        InsertKeepsLaterTies(keys, rest, i, order[0]);
      }
    }
  }

  lemma {:induction false} InsertBounded(keys: seq<real>, order: seq<nat>, i: nat, bound: nat)
    requires i < |keys| && InRange(keys, order)
    requires i < bound && forall k :: 0 <= k < |order| ==> order[k] < bound
    ensures forall k :: 0 <= k < |order| + 1 ==> Insert(keys, order, i)[k] < bound
    decreases |order|
  {
    if |order| > 0 && keys[order[0]] <= keys[i] {
      InsertBounded(keys, order[1..], i, bound);
    }
  }

  /** `order` is a stable sort of the first `n` positions of `keys`. */
  ghost predicate SortsPrefix(keys: seq<real>, order: seq<nat>, n: nat) {
    && |order| == n && InRange(keys, order)
    && multiset(order) == multiset(Range(n))
    && (forall k :: 0 <= k < n ==> order[k] < n)
    && SortedBy(keys, order) && Stable(keys, order)
  }

  /** Inserting position `n` into a stable sort of the first `n` positions sorts `n + 1`. */
  lemma InsertExtendsSort(keys: seq<real>, prefix: seq<nat>, n: nat)
    requires n < |keys| && SortsPrefix(keys, prefix, n)
    ensures SortsPrefix(keys, Insert(keys, prefix, n), n + 1)
  {
    InsertSorted(keys, prefix, n);
    InsertStable(keys, prefix, n);
    InsertBounded(keys, prefix, n, n + 1);
    assert Range(n + 1) == Range(n) + [n];
  }

  /** Insertion sort of the first `n` positions. */
  function SortOrder(keys: seq<real>, n: nat): (order: seq<nat>)
    requires n <= |keys|
    ensures |order| == n && InRange(keys, order)
  {
    if n == 0 then [] else Insert(keys, SortOrder(keys, n - 1), n - 1)
  }

  lemma {:induction false} SortOrderSorts(keys: seq<real>, n: nat)
    requires n <= |keys|
    ensures SortsPrefix(keys, SortOrder(keys, n), n)
  {
    if n > 0 {
      SortOrderSorts(keys, n - 1);
      InsertExtendsSort(keys, SortOrder(keys, n - 1), n - 1);
    }
  }

  /** The order in which a stable sort by `keys` lists the rows. */
  function StableSortOrder(keys: seq<real>): (order: seq<nat>)
    ensures |order| == |keys| && InRange(keys, order)
    ensures IsPermutation(keys, order)
    ensures SortedBy(keys, order) && Stable(keys, order)
  {
    SortOrderSorts(keys, |keys|);
    SortOrder(keys, |keys|)
  }

  /** A permutation of `0..n-1` lists every position, so no row is lost: this is where it
      lists position `p`. */
  lemma PositionOf(order: seq<nat>, n: nat, p: nat) returns (k: nat)
    requires multiset(order) == multiset(Range(n)) && p < n
    ensures k < |order| && order[k] == p
  {
    assert Range(n)[p] == p;
    assert p in multiset(order);
    k :| 0 <= k < |order| && order[k] == p;
  }
}
