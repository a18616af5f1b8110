/**
 Properties relating the operations of the track candidate to one another:
 queries after `addHit`, `append` and the sorts, the equality relation, and
 the concrete inputs on which `reset`, the constructors, `sortHits()` and a
 self-`append` depart from what their code evidently intends.
 */
module TrackCandidateProperties {
  import opened Permutations
  import opened RhoOrder
  import opened TrackCandidate

  // ---------------------------------------------------------------- GetHitIDs and HitInTrack

  /** For a non-negative detector id, `GetHitIDs` lists exactly the hit ids `HitInTrack` accepts. */
  lemma GetHitIDsAgreesWithHitInTrack(c: TrackCand, detId: int32, hitId: uint32)
    requires Paired(c) && detId >= 0
    ensures hitId in GetHitIDs(c, detId) <==> HitInTrack(c, detId as int as uint32, hitId)
  {
  }

  /** The hits on a detector depend only on the first `n` entries of the two lists. */
  lemma {:induction false} HitsOnDetectorPrefix(detIds: seq<uint32>, hitIds: seq<uint32>, detIds': seq<uint32>, hitIds': seq<uint32>, d: uint32, n: nat)
    requires n <= |detIds| && n <= |hitIds| && n <= |detIds'| && n <= |hitIds'|
    requires detIds[..n] == detIds'[..n] && hitIds[..n] == hitIds'[..n]
    ensures HitsOnDetector(detIds, hitIds, d, n) == HitsOnDetector(detIds', hitIds', d, n)
  {
    if n > 0 {
      assert detIds[..n - 1] == detIds'[..n - 1] && hitIds[..n - 1] == hitIds'[..n - 1] by {
        assert detIds[..n - 1] == detIds[..n][..n - 1];
        assert detIds'[..n - 1] == detIds'[..n][..n - 1];
        assert hitIds[..n - 1] == hitIds[..n][..n - 1];
        assert hitIds'[..n - 1] == hitIds'[..n][..n - 1];
      }
      assert detIds[n - 1] == detIds[..n][n - 1] == detIds'[n - 1];
      assert hitIds[n - 1] == hitIds[..n][n - 1] == hitIds'[n - 1];
      HitsOnDetectorPrefix(detIds, hitIds, detIds', hitIds', d, n - 1);
    }
  }

  /** One more round of the scan appends the next hit id when its detector matches. */
  lemma HitsOnDetectorStep(detIds: seq<uint32>, hitIds: seq<uint32>, d: uint32, m: nat)
    requires m < |detIds| && m < |hitIds|
    ensures HitsOnDetector(detIds, hitIds, d, m + 1)
         == HitsOnDetector(detIds, hitIds, d, m) + (if detIds[m] == d then [hitIds[m]] else [])
  {
  }

  /** Scanning two concatenated hit lists scans the first, then the second. */
  lemma {:induction false} HitsOnDetectorConcat(a: TrackCand, b: TrackCand, d: uint32, k: nat)
    requires Paired(a) && Paired(b) && k <= NHits(b)
    ensures HitsOnDetector(a.detIds + b.detIds, a.hitIds + b.hitIds, d, NHits(a) + k)
         == HitsOnDetector(a.detIds, a.hitIds, d, NHits(a)) + HitsOnDetector(b.detIds, b.hitIds, d, k)
  {
    var detIds := a.detIds + b.detIds;
    var hitIds := a.hitIds + b.hitIds;
    var n := NHits(a);
    if k == 0 {
      assert detIds[..n] == a.detIds[..n] && hitIds[..n] == a.hitIds[..n];
      HitsOnDetectorPrefix(detIds, hitIds, a.detIds, a.hitIds, d, n);
    } else {
      HitsOnDetectorConcat(a, b, d, k - 1);
      var m := n + k - 1;
      assert detIds[m] == b.detIds[k - 1] && hitIds[m] == b.hitIds[k - 1];
      HitsOnDetectorStep(detIds, hitIds, d, m);
      HitsOnDetectorStep(b.detIds, b.hitIds, d, k - 1);
      var front := HitsOnDetector(a.detIds, a.hitIds, d, n);
      var middle := HitsOnDetector(b.detIds, b.hitIds, d, k - 1);
      var last := if b.detIds[k - 1] == d then [b.hitIds[k - 1]] else [];
      assert m + 1 == n + k;
      assert HitsOnDetector(detIds, hitIds, d, m + 1) == (front + middle) + last;
      assert (front + middle) + last == front + (middle + last);
    }
  }

  /** After `addHit`, the new hit id is reported for its own detector and for the wildcard, after the earlier ones. */
  lemma AddHitThenGetHitIDs(c: TrackCand, detId: uint32, hitId: uint32, rho: real, planeId: uint32, filter: int32)
    requires Paired(c)
    ensures var r := AddHit(c, detId, hitId, rho, planeId);
      Paired(r) &&
      GetHitIDs(r, filter) == GetHitIDs(c, filter) + (if filter < 0 || filter as int == detId as int then [hitId] else [])
  {
    var r := AddHit(c, detId, hitId, rho, planeId);
    if filter >= 0 {
      var added := TrackCand([detId], [hitId], [planeId], [rho]);
      assert r.detIds == c.detIds + added.detIds && r.hitIds == c.hitIds + added.hitIds;
      HitsOnDetectorConcat(c, added, filter as int as uint32, 1);
    }
  }

  /** After `addHit(d, h, ...)`, `HitInTrack` holds for (d, h) and is unchanged for every other pair. */
  lemma AddHitThenHitInTrack(c: TrackCand, detId: uint32, hitId: uint32, rho: real, planeId: uint32, d: uint32, h: uint32)
    requires Paired(c)
    ensures var r := AddHit(c, detId, hitId, rho, planeId);
      Paired(r) && (HitInTrack(r, d, h) <==> HitInTrack(c, d, h) || (d == detId && h == hitId))
  {
  }

  /** A match on the detector id alone, or on the hit id alone, is not a hit of the track. */
  lemma HitInTrackNeedsBothIds()
    ensures var c := AddHit(AddHit(Empty(), 1, 10, 0.5, 0), 2, 20, 0.1, 0);
      HitInTrack(c, 1, 10) && HitInTrack(c, 2, 20) && !HitInTrack(c, 1, 20) && !HitInTrack(c, 2, 10)
  {
  }

  /** A negative filter returns the hit-id list without reading any detector id. */
  lemma GetHitIDsWildcardReadsNoDetectorIds()
    ensures GetHitIDs(TrackCand([], [5], [], []), -1) == [5]
  {
  }

  /** `HitInTrack` reads a hit id only where the detector id matches, so a short hit-id list is no obstacle elsewhere. */
  lemma HitInTrackReadsHitIdsOnMatch()
    ensures var c := TrackCand([1], [], [], []);
      HitIdsReadableOn(c, 2) && !HitInTrack(c, 2, 10) && !HitIdsReadableOn(c, 1)
  {
  }

  // ---------------------------------------------------------------- reset

  /** After `reset` no hit is counted, listed or found. */
  lemma ResetEmptiesHitQueries(c: TrackCand, filter: int32, d: uint32, h: uint32)
    ensures var r := Reset(c);
      Paired(r) && NHits(r) == 0 && GetHitIDs(r, filter) == [] && !HitInTrack(r, d, h)
  {
  }

  // ---------------------------------------------------------------- operator==

  /** `operator==` is reflexive. */
  lemma EqualsReflexive(a: TrackCand)
    requires Paired(a)
    ensures Equals(a, a)
  {
  }

  /** `operator==` is symmetric. */
  lemma EqualsSymmetric(a: TrackCand, b: TrackCand)
    requires Paired(a) && Paired(b)
    ensures Equals(a, b) <==> Equals(b, a)
  {
  }

  /** `operator==` is transitive. */
  lemma EqualsTransitive(a: TrackCand, b: TrackCand, c: TrackCand)
    requires Paired(a) && Paired(b) && Paired(c)
    requires Equals(a, b) && Equals(b, c)
    ensures Equals(a, c)
  {
  }

  /** `operator==` does not look at rhos or plane ids. */
  lemma EqualsIgnoresRhoAndPlane(a: TrackCand, rhos: seq<real>, planeIds: seq<uint32>)
    requires Paired(a)
    ensures Equals(a, a.(rhos := rhos, planeIds := planeIds))
  {
  }

  /** The same two hits added in the opposite order give unequal candidates. */
  lemma EqualsIsOrderSensitive()
    ensures var a := AddHit(AddHit(Empty(), 1, 10, 0.5, 0), 2, 20, 0.1, 0);
      var b := AddHit(AddHit(Empty(), 2, 20, 0.1, 0), 1, 10, 0.5, 0);
      Paired(a) && Paired(b) && NHits(a) == NHits(b) && !Equals(a, b)
  {
  }

  // ---------------------------------------------------------------- append

  /** A pair found in `append(a, b)` was found in `a` or in `b`. */
  lemma AppendHitInTrackFrom(a: TrackCand, b: TrackCand, defaultPlane: uint32, d: uint32, h: uint32)
    requires Paired(a) && Paired(b) && Readable(b)
    requires HitInTrack(Append(a, b, defaultPlane), d, h)
    ensures HitInTrack(a, d, h) || HitInTrack(b, d, h)
  {
  }

  /** The hits found in `append(a, b)` are those found in `a` or in `b`. */
  lemma AppendThenHitInTrack(a: TrackCand, b: TrackCand, defaultPlane: uint32, d: uint32, h: uint32)
    requires Paired(a) && Paired(b) && Readable(b)
    ensures var r := Append(a, b, defaultPlane);
      Paired(r) && (HitInTrack(r, d, h) <==> HitInTrack(a, d, h) || HitInTrack(b, d, h))
  {
    var r := Append(a, b, defaultPlane);
    assert b.hitIds[..NHits(b)] == b.hitIds;
    if HitInTrack(a, d, h) {
      var k :| 0 <= k < NHits(a) && a.detIds[k] == d && a.hitIds[k] == h;
      assert r.detIds[k] == d && r.hitIds[k] == h;
    }
    if HitInTrack(b, d, h) {
      var k :| 0 <= k < NHits(b) && b.detIds[k] == d && b.hitIds[k] == h;
      assert r.detIds[NHits(a) + k] == d && r.hitIds[NHits(a) + k] == h;
    }
    if HitInTrack(r, d, h) {
      AppendHitInTrackFrom(a, b, defaultPlane, d, h);
    }
  }

  /** For a non-negative filter, `GetHitIDs` of a paired candidate is the scan over all its hits. */
  lemma GetHitIDsIsScan(c: TrackCand, filter: int32)
    requires Paired(c) && filter >= 0
    ensures GetHitIDs(c, filter) == HitsOnDetector(c.detIds, c.hitIds, filter as int as uint32, NHits(c))
  {
  }

  /** `GetHitIDs` of `append(a, b)` lists `a`'s answer followed by `b`'s. */
  lemma AppendThenGetHitIDs(a: TrackCand, b: TrackCand, defaultPlane: uint32, filter: int32)
    requires Paired(a) && Paired(b) && Readable(b)
    ensures var r := Append(a, b, defaultPlane);
      Paired(r) && GetHitIDs(r, filter) == GetHitIDs(a, filter) + GetHitIDs(b, filter)
  {
    assert b.hitIds[..NHits(b)] == b.hitIds;
    if filter >= 0 {
      AppendThenGetHitIDsOnDetector(a, b, defaultPlane, filter);
    }
  }

  /** The detector-filtered case of `AppendThenGetHitIDs`. */
  lemma AppendThenGetHitIDsOnDetector(a: TrackCand, b: TrackCand, defaultPlane: uint32, filter: int32)
    requires Paired(a) && Paired(b) && Readable(b) && filter >= 0
    ensures GetHitIDs(Append(a, b, defaultPlane), filter) == GetHitIDs(a, filter) + GetHitIDs(b, filter)
  {
    var r := Append(a, b, defaultPlane);
    assert b.hitIds[..NHits(b)] == b.hitIds;
    assert r.hitIds == a.hitIds + b.hitIds;
    GetHitIDsIsScan(r, filter);
    GetHitIDsIsScan(a, filter);
    GetHitIDsIsScan(b, filter);
    HitsOnDetectorConcat(a, b, filter as int as uint32, NHits(b));
  }

  /** Appending a candidate without hits changes nothing. */
  lemma AppendEmpty(c: TrackCand, defaultPlane: uint32)
    ensures Append(c, Empty(), defaultPlane) == c
  {
  }

  /** Hits (1, 10, 0.5) followed by the appended (2, 20, 0.1), in that order. */
  lemma AppendExample(defaultPlane: uint32)
    ensures var a := AddHit(Empty(), 1, 10, 0.5, 0);
      var b := AddHit(Empty(), 2, 20, 0.1, 0);
      var r := Append(a, b, defaultPlane);
      NHits(r) == 2 && GetHit(r, 0) == (1, 10, 0.5) && GetHit(r, 1) == (2, 20, 0.1)
  {
  }

  // ---------------------------------------------------------------- sortHits(indices)

  /** A pair in the track of `x` is in the track of any `y` holding the same hit records. */
  lemma SameHitsSameMembership(x: TrackCand, y: TrackCand, d: uint32, h: uint32)
    requires Paired(x) && Covers(x) && Paired(y) && Covers(y) && multiset(Hits(x)) == multiset(Hits(y))
    requires HitInTrack(x, d, h)
    ensures HitInTrack(y, d, h)
  {
    var k :| 0 <= k < NHits(x) && x.detIds[k] == d && x.hitIds[k] == h;
    assert Hits(x)[k] in multiset(Hits(y));
    var j :| 0 <= j < NHits(y) && Hits(y)[j] == Hits(x)[k];
    assert y.detIds[j] == d && y.hitIds[j] == h;
  }

  /** Applying a permutation keeps the set of (detector id, hit id) pairs `HitInTrack` accepts. */
  lemma SortHitsByKeepsMembership(c: TrackCand, indices: seq<nat>, d: uint32, h: uint32)
    requires Paired(c) && Covers(c) && IsPermutation(indices, NHits(c))
    ensures |indices| == NHits(c) && InRange(indices, NHits(c))
    ensures var r := SortHitsBy(c, indices);
      r.Sorted? && Paired(r.cand) && (HitInTrack(r.cand, d, h) <==> HitInTrack(c, d, h))
  {
    SortHitsByPermutation(c, indices);
    var r := SortHitsBy(c, indices).cand;
    assert Paired(r) && Covers(r);
    if HitInTrack(c, d, h) {
      SameHitsSameMembership(c, r, d, h);
    }
    if HitInTrack(r, d, h) {
      SameHitsSameMembership(r, c, d, h);
    }
  }

  /** A candidate refilled after `reset` is not `WellFormed`, yet sorting it keeps its hits. */
  lemma ReusedCandidateKeepsMembership()
    ensures var c := AddHit(Reset(AddHit(AddHit(Empty(), 1, 10, 0.5, 0), 2, 20, 0.7, 0)), 3, 30, 0.1, 0);
      Paired(c) && Covers(c) && !WellFormed(c)
        && SortHitsBy(c, [0]).Sorted? && HitInTrack(SortHitsBy(c, [0]).cand, 3, 30)
  {
    var c := AddHit(Reset(AddHit(AddHit(Empty(), 1, 10, 0.5, 0), 2, 20, 0.7, 0)), 3, 30, 0.1, 0);
    assert c == TrackCand([3], [30], [0, 0, 0], [0.5, 0.7, 0.1]);
    assert Range(1) == [0];
    SortHitsByKeepsMembership(c, [0], 3, 30);
  }

  /** The identity index list leaves the candidate as it is. */
  lemma SortHitsByIdentity(c: TrackCand)
    requires Covers(c)
    ensures SortHitsBy(c, Range(NHits(c))) == Sorted(c)
  {
  }

  // ---------------------------------------------------------------- sortHits()

  /** Sorting by rho a candidate whose rhos are already non-decreasing changes nothing. */
  lemma SortHitsByRhoOfSorted(c: TrackCand)
    requires Covers(c)
    requires forall i, j :: 0 <= i < j < NHits(c) ==> c.rhos[i] <= c.rhos[j]
    ensures SortHitsByRho(c) == Sorted(c)
  {
    OrderOfSortedIsIdentity(c.rhos, NHits(c));
    SortHitsByIdentity(c);
  }

  /** Sorting by rho twice is the same as sorting once. */
  lemma SortHitsByRhoIdempotent(c: TrackCand)
    requires Covers(c)
    ensures var once := SortHitsByRho(c).cand;
      Covers(once) && SortHitsByRho(once) == Sorted(once)
  {
    SortHitsByRhoOfSorted(SortHitsByRho(c).cand);
  }

  /** The only permutation of one position is [0]. */
  lemma PermutationOfOne(idx: seq<nat>)
    requires IsPermutation(idx, 1)
    ensures idx == [0]
  {
    PermutationInRange(idx, 1);
  }

  /** For any one-hit candidate, `sortHits()` as written passes on the index list [0, 0]. */
  lemma OneHitIndicesAsWritten(c: TrackCand)
    requires NHits(c) == 1 && |c.rhos| >= 1
    ensures SortIndicesAsWritten(c) == [0, 0]
  {
    var indices := SortIndicesAsWritten(c);
    PermutationOfOne(indices[1..]);
    assert indices == [indices[0]] + indices[1..];
  }

  /** `sortHits()` as written rejects the one-hit candidate, although its order vector is already sorted. */
  lemma SortHitsAsWrittenRejectsOneHit()
    ensures var c := AddHit(Empty(), 7, 3, 1.5, 0);
      SortIndicesAsWritten(c) == [0, 0] && SortHitsAsWritten(c) == SizeMismatch
        && SortHitsByRho(c) == Sorted(c)
  {
    var c := AddHit(Empty(), 7, 3, 1.5, 0);
    assert c == TrackCand([7], [3], [0], [1.5]);
    assert NHits(c) == 1 && Covers(c);
    OneHitIndicesAsWritten(c);
    SortHitsByRhoOfSorted(c);
  }

  // ---------------------------------------------------------------- reset, as written and corrected

  /** `reset` of a well-formed candidate with hits leaves rhos without hits. */
  lemma ResetBreaksParity(c: TrackCand)
    requires WellFormed(c) && NHits(c) > 0
    ensures !WellFormed(Reset(c)) && |Reset(c).rhos| == NHits(c)
  {
  }

  /** After `reset` and `addHit(2, 20, 0.1)`, hit 0 reports the stale rho 0.5 of the cleared hit. */
  lemma ResetThenAddHitReadsStaleRho()
    ensures var c := AddHit(Reset(AddHit(Empty(), 1, 10, 0.5, 0)), 2, 20, 0.1, 0);
      NHits(c) == 1 && |c.rhos| == 2 && GetHit(c, 0) == (2, 20, 0.5)
  {
  }

  /** With all four lists cleared, a hit added afterwards is read back as added. */
  lemma ResetAllThenAddHit(c: TrackCand, detId: uint32, hitId: uint32, rho: real, planeId: uint32)
    ensures var r := AddHit(ResetAll(c), detId, hitId, rho, planeId);
      WellFormed(r) && NHits(r) == 1 && GetHit(r, 0) == (detId, hitId, rho) && Hits(r) == [Hit(detId, hitId, planeId, rho)]
  {
  }

  // ---------------------------------------------------------------- constructors, as written and corrected

  /** A candidate built from ids has no plane ids, so no index list of matching size can be applied to it. */
  lemma FromIdsCannotBeSorted(detIds: seq<uint32>, hitIds: seq<uint32>, indices: seq<nat>)
    requires |detIds| == |hitIds| && |detIds| > 0 && |indices| == |detIds|
    ensures !ValidIndices(FromIds(detIds, hitIds), indices)
  {
  }

  /** With plane ids stored, every permutation of the hits can be applied and keeps the hits. */
  lemma FromIdsWithPlanesCanBeSorted(detIds: seq<uint32>, hitIds: seq<uint32>, defaultPlane: uint32, indices: seq<nat>)
    requires |detIds| == |hitIds| && IsPermutation(indices, |detIds|)
    ensures var c := FromIdsWithPlanes(detIds, hitIds, defaultPlane);
      ValidIndices(c, indices) && SortHitsBy(c, indices).Sorted?
        && multiset(Hits(SortHitsBy(c, indices).cand)) == multiset(Hits(c))
  {
    SortHitsByPermutation(FromIdsWithPlanes(detIds, hitIds, defaultPlane), indices);
  }

  // ---------------------------------------------------------------- self-append, as written and corrected

  /** In `c.append(c)` with at least one hit, the loop condition still holds after any number of rounds. */
  lemma SelfAppendNeverExits(c: TrackCand, defaultPlane: uint32, k: nat)
    requires Readable(c) && NHits(c) > 0
    ensures k < NHits(SelfAppendAfter(c, k, defaultPlane))
  {
  }

  /** Appending a snapshot of the candidate to itself doubles its hit list. */
  lemma AppendSnapshotDoubles(c: TrackCand, defaultPlane: uint32)
    requires Readable(c) && Paired(c)
    ensures var r := Append(c, c, defaultPlane);
      NHits(r) == 2 * NHits(c) && r.detIds == c.detIds + c.detIds && r.hitIds == c.hitIds + c.hitIds
  {
  }
}
