/**
 Index permutations over sequences: the vocabulary in which the track
 candidate's sorting is stated. A permutation of `n` is an index sequence
 holding each of 0, ..., n-1 exactly once, stated as multiset equality with
 `Range(n)`.
 */
module Permutations {

  /** The indices 0, 1, ..., n-1 in increasing order. */
  function Range(n: nat): (r: seq<nat>)
    ensures |r| == n
    ensures forall i :: 0 <= i < n ==> r[i] == i
  {
    if n == 0 then [] else Range(n - 1) + [n - 1]
  }

  /** `idx` lists every index below `n` exactly once, in some order. */
  ghost predicate IsPermutation(idx: seq<nat>, n: nat) {
    multiset(idx) == multiset(Range(n))
  }

  /** Every entry of an index sequence points into a sequence of length `n`. */
  predicate InRange(idx: seq<nat>, n: nat) {
    forall k :: 0 <= k < |idx| ==> idx[k] < n
  }

  /** The sequence whose k-th element is `s[idx[k]]`. */
  function Permute<T>(s: seq<T>, idx: seq<nat>): (r: seq<T>)
    requires InRange(idx, |s|)
    ensures |r| == |idx|
  {
    seq(|idx|, k requires 0 <= k < |idx| => s[idx[k]])
  }

  /** A permutation has as many entries as it permutes and never points outside. */
  lemma PermutationInRange(idx: seq<nat>, n: nat)
    requires IsPermutation(idx, n)
    ensures |idx| == n
    ensures InRange(idx, n)
  {
    calc {
      |idx|;
      |multiset(idx)|;
      |multiset(Range(n))|;
      |Range(n)|;
    }
    forall k | 0 <= k < |idx|
      ensures idx[k] < n
    {
      assert idx[k] in multiset(idx);
      assert idx[k] in Range(n);
    }
  }

  /** Dropping the position that holds `n-1` from a permutation of `n` leaves a permutation of `n-1`. */
  lemma RemoveLast(idx: seq<nat>, n: nat, j: nat)
    requires n > 0 && IsPermutation(idx, n)
    requires j < |idx| && idx[j] == n - 1
    ensures IsPermutation(idx[..j] + idx[j + 1..], n - 1)
  {
    assert idx == idx[..j] + [idx[j]] + idx[j + 1..];
    assert Range(n) == Range(n - 1) + [n - 1];
    calc {
      multiset(idx[..j] + idx[j + 1..]);
      multiset(idx[..j]) + multiset(idx[j + 1..]);
      multiset(idx) - multiset{(n - 1) as nat};
      multiset(Range(n)) - multiset{(n - 1) as nat};
      multiset(Range(n - 1));
    }
  }

  /** Removing position `j` of the index sequence removes position `j` of the rearranged sequence. */
  lemma PermuteDropLast<T>(s: seq<T>, idx: seq<nat>, j: nat)
    requires |s| > 0 && InRange(idx, |s|) && j < |idx|
    requires InRange(idx[..j] + idx[j + 1..], |s| - 1)
    ensures Permute(s[..|s| - 1], idx[..j] + idx[j + 1..]) == Permute(s, idx)[..j] + Permute(s, idx)[j + 1..]
  {
  }

  /** The multiset of a sequence is that of the sequence without position `j`, plus the element there. */
  lemma MultisetWithout<T>(t: seq<T>, j: nat)
    requires j < |t|
    ensures multiset(t) == multiset(t[..j] + t[j + 1..]) + multiset{t[j]}
  {
    assert t == t[..j] + [t[j]] + t[j + 1..];
  }

  /** Rearranging a sequence by a permutation keeps every element with its multiplicity. */
  lemma {:induction false} PermutePreservesMultiset<T>(s: seq<T>, idx: seq<nat>)
    requires IsPermutation(idx, |s|)
    ensures InRange(idx, |s|)
    ensures multiset(Permute(s, idx)) == multiset(s)
  {
    PermutationInRange(idx, |s|);
    if |s| > 0 {
      var n := |s|;
      var m := n - 1;
      assert Range(n)[m] == m;
      assert m in multiset(Range(n));
      assert m in multiset(idx);
      assert m in idx;
      var j :| 0 <= j < |idx| && idx[j] == m;
      var idx' := idx[..j] + idx[j + 1..];
      var s' := s[..m];
      RemoveLast(idx, n, j);
      PermutePreservesMultiset(s', idx');
      PermuteDropLast(s, idx, j);
      var t := Permute(s, idx);
      MultisetWithout(t, j);
      MultisetWithout(s, m);
      assert t[j] == s[m];
      assert s[..m] + s[m + 1..] == s';
    }
  }
}
