/** The 2-combinations of n positions in the order Python's
    `itertools.combinations(xs, 2)` yields them: (0,1), (0,2), ..., (0,n-1),
    (1,2), ..., (n-2,n-1). Both screeners iterate over this list. */
module Combinations {

  /** An ordered pair of positions (first, second). */
  type IndexPair = (nat, nat)

  /** Lexicographic order on index pairs. */
  predicate LexLess(p: IndexPair, q: IndexPair) {
    p.0 < q.0 || (p.0 == q.0 && p.1 < q.1)
  }

  /** The pairs whose first position is i: (i,i+1), ..., (i,n-1). */
  function Row(i: nat, n: nat): (ps: seq<IndexPair>)
    ensures |ps| == if i < n then n - i - 1 else 0
    ensures forall k :: 0 <= k < |ps| ==> ps[k] == (i, i + 1 + k)
  {
    if i >= n then [] else seq(n - i - 1, k requires 0 <= k < n - i - 1 => (i, i + 1 + k))
  }

  /** The pairs whose first position is at least i, in combination order. */
  function PairsFrom(i: nat, n: nat): (ps: seq<IndexPair>)
    ensures forall k :: 0 <= k < |ps| ==> i <= ps[k].0 < ps[k].1 < n
    decreases n - i
  {
    if i >= n then [] else Row(i, n) + PairsFrom(i + 1, n)
  }

  /** All 2-combinations of n positions, in combination order. */
  function IndexPairs(n: nat): seq<IndexPair> {
    PairsFrom(0, n)
  }

  lemma {:induction false} PairsFromLength(i: nat, n: nat)
    ensures 2 * |PairsFrom(i, n)| == if i >= n then 0 else (n - i) * (n - i - 1)
    decreases n - i
  {
    if i < n {
      PairsFromLength(i + 1, n);
      var m := n - i;
      assert |Row(i, n)| == m - 1;
      if i + 1 < n {
        assert 2 * |PairsFrom(i + 1, n)| == (m - 1) * (m - 2);
        assert (m - 1) * (m - 2) + 2 * (m - 1) == m * (m - 1);
      }
    }
  }

  /** There are exactly n(n-1)/2 combinations. */
  lemma IndexPairsCount(n: nat)
    ensures |IndexPairs(n)| == n * (n - 1) / 2
    ensures |IndexPairs(n)| == 0 <==> n < 2
  {
    PairsFromLength(0, n);
    if n >= 2 {
      assert n * (n - 1) >= 2 by {
        assert n - 1 >= 1;
      }
    }
  }

  lemma {:induction false} PairsFromComplete(i: nat, n: nat, p: IndexPair)
    requires i <= p.0 < p.1 < n
    ensures p in PairsFrom(i, n)
    decreases n - i
  {
    if p.0 == i {
      var r := Row(i, n);
      assert r[p.1 - i - 1] == p;
    } else {
      PairsFromComplete(i + 1, n, p);
    }
  }

  /** A pair of positions is enumerated exactly when it is a 2-combination:
      its first position is smaller than its second, both below n. */
  lemma IndexPairsMembers(n: nat, p: IndexPair)
    ensures p in IndexPairs(n) <==> p.0 < p.1 < n
  {
    if p.0 < p.1 < n {
      PairsFromComplete(0, n, p);
    }
  }

  lemma {:induction false} PairsFromOrdered(i: nat, n: nat)
    ensures forall a, b :: 0 <= a < b < |PairsFrom(i, n)| ==>
              LexLess(PairsFrom(i, n)[a], PairsFrom(i, n)[b])
    decreases n - i
  {
    if i < n {
      PairsFromOrdered(i + 1, n);
      var r, rest := Row(i, n), PairsFrom(i + 1, n);
      var ps := r + rest;
      forall a, b | 0 <= a < b < |ps|
        ensures LexLess(ps[a], ps[b])
      {
        if b < |r| {
          assert ps[a] == r[a] && ps[b] == r[b];
        } else if a < |r| {
          assert ps[a] == r[a] && ps[b] == rest[b - |r|];
          assert r[a] in r && rest[b - |r|] in rest;
        } else {
          assert ps[a] == rest[a - |r|] && ps[b] == rest[b - |r|];
        }
      }
    }
  }

  /** The enumeration is strictly increasing in lexicographic order, which
      is the order `itertools.combinations` produces; in particular no pair
      is enumerated twice. */
  lemma IndexPairsOrdered(n: nat)
    ensures forall a, b :: 0 <= a < b < |IndexPairs(n)| ==>
              LexLess(IndexPairs(n)[a], IndexPairs(n)[b])
    ensures forall a, b :: 0 <= a < b < |IndexPairs(n)| ==> IndexPairs(n)[a] != IndexPairs(n)[b]
  {
    PairsFromOrdered(0, n);
  }

  /** The number of pairs in the rows i0, ..., i-1. */
  function RowsBefore(i0: nat, i: nat, n: nat): nat
    requires i0 <= i < n
    decreases i - i0
  {
    if i0 == i then 0 else (n - i0 - 1) + RowsBefore(i0 + 1, i, n)
  }

  lemma {:induction false} RowsBeforeClosed(i0: nat, i: nat, n: nat)
    requires i0 <= i < n
    ensures 2 * RowsBefore(i0, i, n) == (i - i0) * (2 * n - i - i0 - 1)
    decreases i - i0
  {
    if i0 < i {
      RowsBeforeClosed(i0 + 1, i, n);
      var d, m := i - i0, 2 * n - i - i0 - 1;
      assert (d - 1) * (m - 1) == d * m - d - m + 1;
    }
  }

  /** Position x of row i, the first part of PairsFrom(i, n). */
  lemma PairsFromInRow(i: nat, n: nat, x: nat)
    requires i < n && x < n - i - 1
    ensures x < |PairsFrom(i, n)| && PairsFrom(i, n)[x] == (i, i + 1 + x)
  {
    var r := Row(i, n);
    assert |r| == n - i - 1 && r[x] == (i, i + 1 + x);
    assert PairsFrom(i, n) == r + PairsFrom(i + 1, n);
  }

  /** Position x of PairsFrom(i + 1, n), shifted past row i. */
  lemma PairsFromPastRow(i: nat, n: nat, x: nat)
    requires i < n && x < |PairsFrom(i + 1, n)|
    ensures (n - i - 1) + x < |PairsFrom(i, n)|
    ensures PairsFrom(i, n)[(n - i - 1) + x] == PairsFrom(i + 1, n)[x]
  {
    var r, rest := Row(i, n), PairsFrom(i + 1, n);
    assert |r| == n - i - 1;
    assert PairsFrom(i, n) == r + rest;
    assert (r + rest)[|r| + x] == rest[x];
  }

  lemma {:induction false} PairsFromAt(i0: nat, n: nat, i: nat, j: nat)
    requires i0 <= i < j < n
    ensures RowsBefore(i0, i, n) + (j - i - 1) < |PairsFrom(i0, n)|
    ensures PairsFrom(i0, n)[RowsBefore(i0, i, n) + (j - i - 1)] == (i, j)
    decreases i - i0
  {
    if i0 == i {
      PairsFromInRow(i, n, j - i - 1);
    } else {
      PairsFromAt(i0 + 1, n, i, j);
      PairsFromPastRow(i0, n, RowsBefore(i0 + 1, i, n) + (j - i - 1));
    }
  }

  /** The position of the combination (i, j) among n keys, counted from 0:
      the i rows before it hold (n-1) + (n-2) + ... + (n-i) pairs, and
      (i, j) is the (j-i-1)-th pair of its own row. */
  function PairIndex(n: nat, i: nat, j: nat): int {
    i * (2 * n - i - 1) / 2 + (j - i - 1)
  }

  /** The combination (i, j) sits at position PairIndex(n, i, j). */
  lemma IndexPairsAt(n: nat, i: nat, j: nat)
    requires i < j < n
    ensures 0 <= PairIndex(n, i, j) < |IndexPairs(n)|
    ensures IndexPairs(n)[PairIndex(n, i, j)] == (i, j)
  {
    PairsFromAt(0, n, i, j);
    RowsBeforeClosed(0, i, n);
    var m := i * (2 * n - i - 1);
    assert m == 2 * RowsBefore(0, i, n);
    assert m / 2 == RowsBefore(0, i, n);
  }
}
