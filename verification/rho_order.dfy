/**
 The order vector built by the rho sort of a track candidate: one
 (rho, index) pair per hit, sorted with the lexicographic order of
 `std::pair<double, int>`. `std::sort` is modelled by an insertion sort;
 since that order is total and antisymmetric, every sorting algorithm
 produces the same sequence (`SortedUnique`), so the choice does not matter.
 */
module RhoOrder {
  import opened Permutations

  /** One entry of the order vector: a hit's rho and its position. */
  type RhoIndex = (real, nat)

  /** `operator<=` of `std::pair`: compare rho first, the index breaks ties. */
  predicate PairLe(a: RhoIndex, b: RhoIndex) {
    a.0 < b.0 || (a.0 == b.0 && a.1 <= b.1)
  }

  /** Non-decreasing in the pair order. */
  predicate SortedPairs(s: seq<RhoIndex>) {
    forall i, j :: 0 <= i < j < |s| ==> PairLe(s[i], s[j])
  }

  /** A pair no greater than any element of a sorted sequence can be put in front of it. */
  lemma ConsSorted(x: RhoIndex, s: seq<RhoIndex>)
    requires SortedPairs(s)
    requires forall k :: 0 <= k < |s| ==> PairLe(x, s[k])
    ensures SortedPairs([x] + s)
  {
  }

  /** Inserts `x` into a sorted sequence before the first element not below it. */
  function Insert(x: RhoIndex, s: seq<RhoIndex>): (r: seq<RhoIndex>)
    requires SortedPairs(s)
    ensures SortedPairs(r)
    ensures multiset(r) == multiset(s) + multiset{x}
  {
    if s == [] then [x]
    else if PairLe(x, s[0]) then
      ConsSorted(x, s);
      [x] + s
    else
      var rest := Insert(x, s[1..]);
      assert s == [s[0]] + s[1..];
      assert forall k :: 0 <= k < |rest| ==> PairLe(s[0], rest[k]) by {
        forall k | 0 <= k < |rest|
          ensures PairLe(s[0], rest[k])
        {
          assert rest[k] in multiset(rest);
        }
      }
      ConsSorted(s[0], rest);
      [s[0]] + rest
  }

  /** The sorted rearrangement of `s` (the effect of `std::sort`). */
  function SortPairs(s: seq<RhoIndex>): (r: seq<RhoIndex>)
    ensures SortedPairs(r)
    ensures multiset(r) == multiset(s)
  {
    if s == [] then []
    else
      assert s == [s[0]] + s[1..];
      Insert(s[0], SortPairs(s[1..]))
  }

  /** Two sorted sequences holding the same pairs start with the same pair: the least one. */
  lemma SameHead(a: seq<RhoIndex>, b: seq<RhoIndex>)
    requires SortedPairs(a) && SortedPairs(b)
    requires multiset(a) == multiset(b) && a != []
    ensures b != [] && a[0] == b[0]
  {
    assert a[0] in multiset(b);
    assert a[0] in b;
    assert b[0] in multiset(a);
    assert b[0] in a;
  }

  /** Removing the same first element from two sequences with equal multisets keeps them equal. */
  lemma SameTail<T>(a: seq<T>, b: seq<T>)
    requires multiset(a) == multiset(b) && a != [] && b != [] && a[0] == b[0]
    ensures multiset(a[1..]) == multiset(b[1..])
  {
    var x := a[0];
    assert a == [x] + a[1..];
    assert b == [x] + b[1..];
    forall y
      ensures multiset(a[1..])[y] == multiset(b[1..])[y]
    {
      assert multiset(a)[y] == multiset([x])[y] + multiset(a[1..])[y];
      assert multiset(b)[y] == multiset([x])[y] + multiset(b[1..])[y];
    }
  }

  /** Two sorted sequences holding the same pairs are equal: the sorted result is unique. */
  lemma {:induction false} SortedUnique(a: seq<RhoIndex>, b: seq<RhoIndex>)
    requires SortedPairs(a) && SortedPairs(b)
    requires multiset(a) == multiset(b)
    ensures a == b
  {
    if a == [] {
      assert |b| == |multiset(b)| == 0;
    } else {
      SameHead(a, b);
      SameTail(a, b);
      SortedUnique(a[1..], b[1..]);
      assert a == [a[0]] + a[1..];
      assert b == [b[0]] + b[1..];
    }
  }

  /** The second components, in order. */
  function Seconds(s: seq<RhoIndex>): (r: seq<nat>)
    ensures |r| == |s|
  {
    seq(|s|, k requires 0 <= k < |s| => s[k].1)
  }

  /** Equal multisets stay equal after removing one copy of the same element. */
  lemma Cancel<T>(x: multiset<T>, y: multiset<T>, e: T)
    requires x + multiset{e} == y + multiset{e}
    ensures x == y
  {
    forall v
      ensures x[v] == y[v]
    {
      assert (x + multiset{e})[v] == (y + multiset{e})[v];
    }
  }

  /** Dropping position `j` of the pairs drops position `j` of their second components. */
  lemma SecondsWithout(b: seq<RhoIndex>, j: nat)
    requires j < |b|
    ensures Seconds(b[..j] + b[j + 1..]) == Seconds(b)[..j] + Seconds(b)[j + 1..]
  {
  }

  /** Taking the first pair of `a` out of both sides keeps the multisets equal. */
  lemma RemoveMatching(a: seq<RhoIndex>, b: seq<RhoIndex>, j: nat)
    requires multiset(a) == multiset(b) && a != []
    requires j < |b| && b[j] == a[0]
    ensures multiset(a[1..]) == multiset(b[..j] + b[j + 1..])
  {
    MultisetWithout(a, 0);
    assert a[..0] + a[1..] == a[1..];
    MultisetWithout(b, j);
    Cancel(multiset(a[1..]), multiset(b[..j] + b[j + 1..]), a[0]);
  }

  /** Rearranging pairs rearranges their second components the same way. */
  lemma {:induction false} SecondsMultiset(a: seq<RhoIndex>, b: seq<RhoIndex>)
    requires multiset(a) == multiset(b)
    ensures multiset(Seconds(a)) == multiset(Seconds(b))
  {
    if a == [] {
      assert |b| == |multiset(b)| == 0;
    } else {
      assert a[0] in multiset(b);
      var j :| 0 <= j < |b| && b[j] == a[0];
      RemoveMatching(a, b, j);
      SecondsMultiset(a[1..], b[..j] + b[j + 1..]);
      SecondsWithout(b, j);
      var sa := Seconds(a);
      var sb := Seconds(b);
      MultisetWithout(sb, j);
      MultisetWithout(sa, 0);
      assert sa[..0] + sa[1..] == Seconds(a[1..]);
      assert sa[0] == sb[j];
    }
  }

  /** The pairs (rhos[i], i) for i < n, in index order: the order vector before sorting. */
  function Tagged(rhos: seq<real>, n: nat): (r: seq<RhoIndex>)
    requires n <= |rhos|
    ensures |r| == n
    ensures Seconds(r) == Range(n)
  {
    seq(n, i requires 0 <= i < n => (rhos[i], i as nat))
  }

  /** The sorted order vector of the first `n` rhos. */
  function Order(rhos: seq<real>, n: nat): (order: seq<RhoIndex>)
    requires n <= |rhos|
    ensures |order| == n
    ensures SortedPairs(order)
    ensures forall k :: 0 <= k < n ==> order[k].1 < n && order[k].0 == rhos[order[k].1]
    ensures IsPermutation(Seconds(order), n)
  {
    var tagged := Tagged(rhos, n);
    var order := SortPairs(tagged);
    assert |order| == |multiset(order)| == |multiset(tagged)| == n;
    assert forall k :: 0 <= k < n ==> order[k].1 < n && order[k].0 == rhos[order[k].1] by {
      forall k | 0 <= k < n
        ensures order[k].1 < n && order[k].0 == rhos[order[k].1]
      {
        assert order[k] in multiset(tagged);
      }
    }
    SecondsMultiset(order, tagged);
    order
  }

  /** Hits ordered by the order vector have non-decreasing rho, equal rhos keeping index order. */
  lemma OrderSortsByRho(rhos: seq<real>, n: nat)
    requires n <= |rhos|
    ensures var idx := Seconds(Order(rhos, n));
      forall k, l :: 0 <= k < l < n ==>
        rhos[idx[k]] < rhos[idx[l]] || (rhos[idx[k]] == rhos[idx[l]] && idx[k] < idx[l])
  {
    var order := Order(rhos, n);
    var idx := Seconds(order);
    PermutationInRange(idx, n);
    forall k, l | 0 <= k < l < n
      ensures rhos[idx[k]] < rhos[idx[l]] || (rhos[idx[k]] == rhos[idx[l]] && idx[k] < idx[l])
    {
      assert PairLe(order[k], order[l]);
      if idx[k] == idx[l] {
        DistinctEntries(idx, n, k, l);
      }
    }
  }

  /** A permutation never holds the same index at two positions. */
  lemma DistinctEntries(idx: seq<nat>, n: nat, k: nat, l: nat)
    requires IsPermutation(idx, n)
    requires k < l < |idx|
    ensures idx[k] != idx[l]
  {
    if idx[k] == idx[l] {
      var x := idx[k];
      assert idx == idx[..k] + [x] + idx[k + 1..l] + [x] + idx[l + 1..];
      assert multiset(idx)[x] >= 2;
      assert Range(n)[x] == x;
      RangeCountsOnce(n, x);
      assert false;
    }
  }

  /** Every index below `n` occurs exactly once in `Range(n)`. */
  lemma {:induction false} RangeCountsOnce(n: nat, x: nat)
    requires x < n
    ensures multiset(Range(n))[x] == 1
  {
    var below := Range(n - 1);
    assert Range(n) == below + [n - 1];
    assert multiset(Range(n)) == multiset(below) + multiset{(n - 1) as nat};
    if x < n - 1 {
      RangeCountsOnce(n - 1, x);
    } else {
      assert forall i :: 0 <= i < |below| ==> below[i] < x;
      assert x !in below;
    }
  }

  /** When the rhos are already non-decreasing, sorting leaves the order vector untouched. */
  lemma OrderOfSortedIsIdentity(rhos: seq<real>, n: nat)
    requires n <= |rhos|
    requires forall i, j :: 0 <= i < j < n ==> rhos[i] <= rhos[j]
    ensures Seconds(Order(rhos, n)) == Range(n)
  {
    var tagged := Tagged(rhos, n);
    SortedUnique(Order(rhos, n), tagged);
  }
}
