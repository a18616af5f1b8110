/**
 The hit list of a GENFIT track candidate (`GFTrackCand`): four parallel
 lists holding, per hit, the detector id, the hit id, the plane id and the
 ordering coordinate rho. Every operation is a pure function from the old
 candidate to the new one; the size-checked permutation returns a
 `SortResult` in place of throwing `GFException`.

 Accessors that live in the class header are modelled by assumption:
 the hit count is the length of the detector-id list (`NHits`), `getHit(i)`
 reads position i of the detector-id, hit-id and rho lists (`GetHit`), and
 the three-argument `addHit` passes a default plane id that is taken here as
 a parameter because its value is not visible.
 */
module TrackCandidate {
  import opened Permutations
  import opened RhoOrder

  /** C++ `unsigned int`. */
  newtype uint32 = x: int | 0 <= x < 0x1_0000_0000

  /** C++ `int`. */
  newtype int32 = x: int | -0x8000_0000 <= x < 0x8000_0000

  /** The hit lists of a candidate; the seed parameters are not modelled. */
  datatype TrackCand = TrackCand(
    detIds: seq<uint32>,
    hitIds: seq<uint32>,
    planeIds: seq<uint32>,
    rhos: seq<real>)

  /** One hit, read across the four lists at the same position. */
  datatype Hit = Hit(detId: uint32, hitId: uint32, planeId: uint32, rho: real)

  /** Outcome of applying an index list: the rearranged candidate, or the size error. */
  datatype SortResult = Sorted(cand: TrackCand) | SizeMismatch

  /** Number of hits (header accessor `getNHits`): the length of the detector-id list. */
  function NHits(c: TrackCand): nat {
    |c.detIds|
  }

  /** Detector-id and hit-id lists have equal length: asserted by the constructors, kept by every operation. */
  predicate Paired(c: TrackCand) {
    |c.detIds| == |c.hitIds|
  }

  /** Every list holds an entry for each of the `NHits` hits. */
  predicate Covers(c: TrackCand) {
    |c.hitIds| >= NHits(c) && |c.planeIds| >= NHits(c) && |c.rhos| >= NHits(c)
  }

  /** All four lists have the same length. */
  predicate WellFormed(c: TrackCand) {
    |c.hitIds| == NHits(c) && |c.planeIds| == NHits(c) && |c.rhos| == NHits(c)
  }

  /** The hits as records, one per position below `NHits`. */
  function Hits(c: TrackCand): (r: seq<Hit>)
    requires Covers(c)
    ensures |r| == NHits(c)
  {
    seq(NHits(c), i requires 0 <= i < NHits(c) => Hit(c.detIds[i], c.hitIds[i], c.planeIds[i], c.rhos[i]))
  }

  /** `getHit(i, detId, hitId, rho)` (header accessor): position `i` of three of the lists. */
  function GetHit(c: TrackCand, i: nat): (uint32, uint32, real)
    requires i < NHits(c) && i < |c.hitIds| && i < |c.rhos|
  {
    (c.detIds[i], c.hitIds[i], c.rhos[i])
  }

  /** `s'` is `s` with `x` added at the end. */
  ghost predicate Extends<T>(s': seq<T>, s: seq<T>, x: T) {
    |s'| == |s| + 1 && s'[..|s|] == s && s'[|s|] == x
  }

  // ---------------------------------------------------------------- constructors

  /** The default constructor: no hits. */
  function Empty(): (c: TrackCand)
    ensures NHits(c) == 0 && WellFormed(c)
  {
    TrackCand([], [], [], [])
  }

  /** The constructor from detector and hit ids: every rho is zero, no plane id is stored. */
  function FromIds(detIds: seq<uint32>, hitIds: seq<uint32>): (c: TrackCand)
    requires |detIds| == |hitIds|
    ensures c.detIds == detIds && c.hitIds == hitIds && Paired(c)
    ensures |c.rhos| == NHits(c) && forall i :: 0 <= i < |c.rhos| ==> c.rhos[i] == 0.0
    ensures |c.planeIds| == 0
  {
    TrackCand(detIds, hitIds, [], seq(|detIds|, _ => 0.0))
  }

  /** The constructor from detector ids, hit ids and rhos: no plane id is stored. */
  function FromIdsAndRhos(detIds: seq<uint32>, hitIds: seq<uint32>, rhos: seq<real>): (c: TrackCand)
    requires |detIds| == |hitIds| && |detIds| == |rhos|
    ensures c.detIds == detIds && c.hitIds == hitIds && c.rhos == rhos && Paired(c)
    ensures |c.planeIds| == 0
  {
    TrackCand(detIds, hitIds, [], rhos)
  }

  // ---------------------------------------------------------------- addHit

  /** `addHit`: one new entry at the end of each of the four lists. */
  function AddHit(c: TrackCand, detId: uint32, hitId: uint32, rho: real, planeId: uint32): (r: TrackCand)
    ensures NHits(r) == NHits(c) + 1
    ensures Extends(r.detIds, c.detIds, detId) && Extends(r.hitIds, c.hitIds, hitId)
    ensures Extends(r.planeIds, c.planeIds, planeId) && Extends(r.rhos, c.rhos, rho)
    ensures Paired(c) ==> Paired(r)
    ensures WellFormed(c) ==> WellFormed(r)
  {
    TrackCand(c.detIds + [detId], c.hitIds + [hitId], c.planeIds + [planeId], c.rhos + [rho])
  }

  // ---------------------------------------------------------------- GetHitIDs

  /** The positions below `n` whose detector id is `d`, in increasing order. */
  ghost function MatchPositions(detIds: seq<uint32>, d: uint32, n: nat): (p: seq<nat>)
    requires n <= |detIds|
    ensures |p| <= n
    ensures forall k :: 0 <= k < |p| ==> p[k] < n && detIds[p[k]] == d
    ensures forall k, l :: 0 <= k < l < |p| ==> p[k] < p[l]
    ensures forall i :: 0 <= i < n && detIds[i] == d ==> i in p
  {
    if n == 0 then []
    else MatchPositions(detIds, d, n - 1) + (if detIds[n - 1] == d then [n - 1] else [])
  }

  /** The hit ids among the first `n` hits whose detector id is `d` (the loop of `GetHitIDs`). */
  function HitsOnDetector(detIds: seq<uint32>, hitIds: seq<uint32>, d: uint32, n: nat): seq<uint32>
    requires n <= |detIds| && n <= |hitIds|
  {
    if n == 0 then []
    else HitsOnDetector(detIds, hitIds, d, n - 1) + (if detIds[n - 1] == d then [hitIds[n - 1]] else [])
  }

  /** The scan picks, in order, the hit ids at the matching positions. */
  lemma {:induction false} HitsOnDetectorMatches(detIds: seq<uint32>, hitIds: seq<uint32>, d: uint32, n: nat)
    requires n <= |detIds| && n <= |hitIds|
    ensures var r := HitsOnDetector(detIds, hitIds, d, n);
      var p := MatchPositions(detIds, d, n);
      |r| == |p| && forall k :: 0 <= k < |r| ==> r[k] == hitIds[p[k]]
  {
    if n > 0 {
      HitsOnDetectorMatches(detIds, hitIds, d, n - 1);
    }
  }

  /**
   `GetHitIDs(detId)`: every hit id when `detId` is negative, otherwise the hit
   ids whose detector id is `detId`, in list order.
   */
  function GetHitIDs(c: TrackCand, detId: int32): (r: seq<uint32>)
    requires detId >= 0 ==> |c.hitIds| <= |c.detIds|
    ensures |r| <= |c.hitIds|
    ensures detId < 0 ==> r == c.hitIds
    ensures detId >= 0 ==>
      var p := MatchPositions(c.detIds, detId as int as uint32, |c.hitIds|);
      |r| == |p| && forall k :: 0 <= k < |r| ==> r[k] == c.hitIds[p[k]]
  {
    if detId < 0 then c.hitIds
    else
      HitsOnDetectorMatches(c.detIds, c.hitIds, detId as int as uint32, |c.hitIds|);
      HitsOnDetector(c.detIds, c.hitIds, detId as int as uint32, |c.hitIds|)
  }

  // ---------------------------------------------------------------- reset

  /** `reset`: empties the detector-id and hit-id lists only; plane ids and rhos stay. */
  function Reset(c: TrackCand): (r: TrackCand)
    ensures NHits(r) == 0 && |r.hitIds| == 0 && Paired(r)
    ensures r.planeIds == c.planeIds && r.rhos == c.rhos
  {
    c.(detIds := [], hitIds := [])
  }

  // ---------------------------------------------------------------- HitInTrack

  /**
   The hit id is readable wherever the detector id matches: `HitInTrack` reads
   `fHitId[i]` only after `fDetId[i] == detId` holds.
   */
  predicate HitIdsReadableOn(c: TrackCand, detId: uint32) {
    forall k :: 0 <= k < NHits(c) && c.detIds[k] == detId ==> k < |c.hitIds|
  }

  /** The scan of `HitInTrack` from position `i` on. */
  function HitInTrackFrom(c: TrackCand, detId: uint32, hitId: uint32, i: nat): (r: bool)
    requires i <= NHits(c) && HitIdsReadableOn(c, detId)
    ensures r <==> exists k :: i <= k < NHits(c) && c.detIds[k] == detId && c.hitIds[k] == hitId
    decreases NHits(c) - i
  {
    if i == NHits(c) then false
    else if detId == c.detIds[i] && hitId == c.hitIds[i] then true
    else HitInTrackFrom(c, detId, hitId, i + 1)
  }

  /** `HitInTrack`: some single position carries both the detector id and the hit id. */
  function HitInTrack(c: TrackCand, detId: uint32, hitId: uint32): (r: bool)
    requires HitIdsReadableOn(c, detId)
    ensures r <==> exists k :: 0 <= k < NHits(c) && c.detIds[k] == detId && c.hitIds[k] == hitId
  {
    HitInTrackFrom(c, detId, hitId, 0)
  }

  // ---------------------------------------------------------------- operator==

  /** `std::equal(x.begin(), x.end(), y.begin())`: `x` agrees with the start of `y`. */
  function StdEqual(x: seq<uint32>, y: seq<uint32>): (r: bool)
    requires |x| <= |y|
    ensures r <==> x == y[..|x|]
  {
    if x == [] then true else x[0] == y[0] && StdEqual(x[1..], y[1..])
  }

  /**
   `operator==`: same hit count, then position-wise equal detector ids and hit
   ids; `std::equal` reads as many hit ids of `b` as `a` has.
   */
  function Equals(a: TrackCand, b: TrackCand): (r: bool)
    requires NHits(a) == NHits(b) ==> |a.hitIds| <= |b.hitIds|
    ensures r <==> a.detIds == b.detIds && a.hitIds == b.hitIds[..|a.hitIds|]
    ensures Paired(a) && Paired(b) ==> (r <==> a.detIds == b.detIds && a.hitIds == b.hitIds)
  {
    if NHits(a) != NHits(b) then false
    else StdEqual(a.detIds, b.detIds) && StdEqual(a.hitIds, b.hitIds)
  }

  // ---------------------------------------------------------------- append

  /** The list holding `k` copies of `x`. */
  function Repeat<T>(x: T, k: nat): (r: seq<T>)
    ensures |r| == k && forall i :: 0 <= i < k ==> r[i] == x
  {
    seq(k, _ => x)
  }

  /** `getHit` can read every hit of `c`. */
  predicate Readable(c: TrackCand) {
    |c.hitIds| >= NHits(c) && |c.rhos| >= NHits(c)
  }

  /** The first `k` rounds of the loop of `append`, reading the hits of `rhs`. */
  function AppendFirst(c: TrackCand, rhs: TrackCand, k: nat, defaultPlane: uint32): (r: TrackCand)
    requires Readable(rhs) && k <= NHits(rhs)
    ensures r.detIds == c.detIds + rhs.detIds[..k]
    ensures r.hitIds == c.hitIds + rhs.hitIds[..k]
    ensures r.rhos == c.rhos + rhs.rhos[..k]
    ensures r.planeIds == c.planeIds + Repeat(defaultPlane, k)
  {
    if k == 0 then c
    else
      var (detId, hitId, rho) := GetHit(rhs, k - 1);
      var prev := AppendFirst(c, rhs, k - 1, defaultPlane);
      assert rhs.detIds[..k] == rhs.detIds[..k - 1] + [detId];
      assert rhs.hitIds[..k] == rhs.hitIds[..k - 1] + [hitId];
      assert rhs.rhos[..k] == rhs.rhos[..k - 1] + [rho];
      assert Repeat(defaultPlane, k) == Repeat(defaultPlane, k - 1) + [defaultPlane];
      AddHit(prev, detId, hitId, rho, defaultPlane)
  }

  /**
   `append(rhs)`: the hits of `rhs` follow those of `c`, in `rhs`'s order,
   each added by the three-argument `addHit` with the default plane id.
   */
  function Append(c: TrackCand, rhs: TrackCand, defaultPlane: uint32): (r: TrackCand)
    requires Readable(rhs)
    ensures NHits(r) == NHits(c) + NHits(rhs)
    ensures r.detIds == c.detIds + rhs.detIds
    ensures r.hitIds == c.hitIds + rhs.hitIds[..NHits(rhs)]
    ensures r.rhos == c.rhos + rhs.rhos[..NHits(rhs)]
    ensures r.planeIds == c.planeIds + Repeat(defaultPlane, NHits(rhs))
    ensures Paired(c) && Paired(rhs) ==> Paired(r)
    ensures WellFormed(c) ==> WellFormed(r)
  {
    assert rhs.detIds[..NHits(rhs)] == rhs.detIds;
    AppendFirst(c, rhs, NHits(rhs), defaultPlane)
  }

  // ---------------------------------------------------------------- sortHits(indices)

  /** `std::copy(sorted.begin(), sorted.end(), s.begin())`: overwrite the front of `s`. */
  function Overwrite<T>(s: seq<T>, sorted: seq<T>): (r: seq<T>)
    requires |sorted| <= |s|
    ensures |r| == |s| && r[..|sorted|] == sorted && r[|sorted|..] == s[|sorted|..]
  {
    sorted + s[|sorted|..]
  }

  /** What `sortHits(indices)` reads and writes once the size check has passed. */
  predicate ValidIndices(c: TrackCand, indices: seq<nat>) {
    Covers(c) && InRange(indices, NHits(c))
  }

  /**
   `sortHits(indices)`: rejects an index list whose length differs from the hit
   count; otherwise position `i` of every list receives the entry at
   `indices[i]`, and entries past the hit count are kept.
   */
  function SortHitsBy(c: TrackCand, indices: seq<nat>): (r: SortResult)
    requires |indices| == NHits(c) ==> ValidIndices(c, indices)
    ensures r.SizeMismatch? <==> |indices| != NHits(c)
    ensures r.Sorted? ==>
      && NHits(r.cand) == NHits(c) && Covers(r.cand)
      && |r.cand.hitIds| == |c.hitIds| && |r.cand.planeIds| == |c.planeIds| && |r.cand.rhos| == |c.rhos|
      && (forall i :: 0 <= i < NHits(c) ==> Hits(r.cand)[i] == Hits(c)[indices[i]])
      && r.cand.hitIds[NHits(c)..] == c.hitIds[NHits(c)..]
      && r.cand.planeIds[NHits(c)..] == c.planeIds[NHits(c)..]
      && r.cand.rhos[NHits(c)..] == c.rhos[NHits(c)..]
  {
    if |indices| != NHits(c) then SizeMismatch
    else
      Sorted(TrackCand(
        Permute(c.detIds, indices),
        Overwrite(c.hitIds, Permute(c.hitIds, indices)),
        Overwrite(c.planeIds, Permute(c.planeIds, indices)),
        Overwrite(c.rhos, Permute(c.rhos, indices))))
  }

  // ---------------------------------------------------------------- sortHits()

  /** The sorted order vector of `sortHits()`: (rho, index) pairs of all hits. */
  function RhoOrderOf(c: TrackCand): (order: seq<RhoIndex>)
    requires |c.rhos| >= NHits(c)
    ensures |order| == NHits(c) && SortedPairs(order)
    ensures forall k :: 0 <= k < NHits(c) ==> order[k].1 < NHits(c) && order[k].0 == c.rhos[order[k].1]
    ensures IsPermutation(Seconds(order), NHits(c))
  {
    Order(c.rhos, NHits(c))
  }

  /**
   The index list `sortHits()` passes on, as written: the vector is created
   with `nHits` zero entries and the sorted indices are pushed after them.
   */
  function SortIndicesAsWritten(c: TrackCand): (indices: seq<nat>)
    requires |c.rhos| >= NHits(c)
    ensures |indices| == 2 * NHits(c)
    ensures forall k :: 0 <= k < NHits(c) ==> indices[k] == 0
    ensures indices[NHits(c)..] == Seconds(RhoOrderOf(c))
    ensures IsPermutation(indices[NHits(c)..], NHits(c))
  {
    var n := NHits(c);
    var indices := Repeat(0, n) + Seconds(RhoOrderOf(c));
    assert indices[n..] == Seconds(RhoOrderOf(c));
    indices
  }

  /**
   `sortHits()` as written: the index list is twice as long as the hit list,
   so the size check rejects every candidate with a hit, and a candidate
   without hits is left as it is.
   */
  function SortHitsAsWritten(c: TrackCand): (r: SortResult)
    requires |c.rhos| >= NHits(c)
    ensures NHits(c) > 0 ==> r == SizeMismatch
    ensures NHits(c) == 0 ==> r == Sorted(c)
  {
    var indices := SortIndicesAsWritten(c);
    var r := SortHitsBy(c, indices);
    assert NHits(c) == 0 ==>
      r.Sorted? && r.cand.hitIds == c.hitIds && r.cand.planeIds == c.planeIds
      && r.cand.rhos == c.rhos && r.cand.detIds == c.detIds;
    r
  }

  /** Sorting by a permutation succeeds, gathers every list through it, and keeps the hits. */
  lemma SortHitsByPermutation(c: TrackCand, indices: seq<nat>)
    requires Covers(c) && IsPermutation(indices, NHits(c))
    ensures |indices| == NHits(c) && InRange(indices, NHits(c))
    ensures var r := SortHitsBy(c, indices);
      && r.Sorted? && NHits(r.cand) == NHits(c) && Covers(r.cand)
      && (forall i :: 0 <= i < NHits(c) ==> Hits(r.cand)[i] == Hits(c)[indices[i]])
      && (forall i :: 0 <= i < NHits(c) ==> r.cand.rhos[i] == c.rhos[indices[i]])
      && multiset(Hits(r.cand)) == multiset(Hits(c))
  {
    PermutationInRange(indices, NHits(c));
    var r := SortHitsBy(c, indices);
    assert Hits(r.cand) == Permute(Hits(c), indices);
    PermutePreservesMultiset(Hits(c), indices);
  }

  /**
   `sortHits()` as evidently intended: the index list is the sorted order
   vector itself, so the hits come out in non-decreasing rho, hits with equal
   rho keep their original relative order, and no hit is lost or duplicated.
   */
  function SortHitsByRho(c: TrackCand): (r: SortResult)
    requires Covers(c)
    ensures r.Sorted? && NHits(r.cand) == NHits(c) && Covers(r.cand)
    ensures forall i, j :: 0 <= i < j < NHits(c) ==> r.cand.rhos[i] <= r.cand.rhos[j]
    ensures multiset(Hits(r.cand)) == multiset(Hits(c))
    ensures var idx := Seconds(RhoOrderOf(c));
      && (forall i :: 0 <= i < NHits(c) ==> idx[i] < NHits(c) && Hits(r.cand)[i] == Hits(c)[idx[i]])
      && (forall i, j :: 0 <= i < j < NHits(c) && c.rhos[idx[i]] == c.rhos[idx[j]] ==> idx[i] < idx[j])
  {
    var n := NHits(c);
    var indices := Seconds(RhoOrderOf(c));
    SortHitsByPermutation(c, indices);
    OrderSortsByRho(c.rhos, n);
    SortHitsBy(c, indices)
  }

  // ---------------------------------------------------------------- corrections

  /** `reset` as evidently intended: all four lists are emptied together. */
  function ResetAll(c: TrackCand): (r: TrackCand)
    ensures NHits(r) == 0 && WellFormed(r)
    ensures |r.planeIds| == 0 && |r.rhos| == 0
  {
    TrackCand([], [], [], [])
  }

  /** The id constructor as evidently intended: a plane id is stored for every hit. */
  function FromIdsWithPlanes(detIds: seq<uint32>, hitIds: seq<uint32>, defaultPlane: uint32): (c: TrackCand)
    requires |detIds| == |hitIds|
    ensures c.detIds == detIds && c.hitIds == hitIds && WellFormed(c)
    ensures forall i :: 0 <= i < NHits(c) ==> c.rhos[i] == 0.0 && c.planeIds[i] == defaultPlane
  {
    TrackCand(detIds, hitIds, Repeat(defaultPlane, |detIds|), Repeat(0.0, |detIds|))
  }

  /** A list that starts with `mid`, which starts with `s`, starts with `s`. */
  lemma PrefixKept<T>(r: seq<T>, mid: seq<T>, s: seq<T>)
    requires |s| <= |mid| <= |r| && r[..|mid|] == mid && mid[..|s|] == s
    ensures r[..|s|] == s
  {
    assert r[..|s|] == r[..|mid|][..|s|];
  }

  /**
   The state after `k` rounds of the loop of `c.append(c)`: the argument is
   the candidate itself, so each round both reads from and adds to it, and
   the loop bound `rhs.getNHits()` grows with every round.
   */
  function SelfAppendAfter(c: TrackCand, k: nat, defaultPlane: uint32): (r: TrackCand)
    requires Readable(c)
    requires NHits(c) > 0 || k == 0
    ensures Readable(r) && NHits(r) == NHits(c) + k
    ensures |r.hitIds| == |c.hitIds| + k && |r.rhos| == |c.rhos| + k && |r.planeIds| == |c.planeIds| + k
    ensures r.detIds[..NHits(c)] == c.detIds && r.hitIds[..|c.hitIds|] == c.hitIds
    ensures r.rhos[..|c.rhos|] == c.rhos && r.planeIds[..|c.planeIds|] == c.planeIds
  {
    if k == 0 then c
    else
      var prev := SelfAppendAfter(c, k - 1, defaultPlane);
      var (detId, hitId, rho) := GetHit(prev, k - 1);
      var r := AddHit(prev, detId, hitId, rho, defaultPlane);
      PrefixKept(r.detIds, prev.detIds, c.detIds);
      PrefixKept(r.hitIds, prev.hitIds, c.hitIds);
      PrefixKept(r.rhos, prev.rhos, c.rhos);
      PrefixKept(r.planeIds, prev.planeIds, c.planeIds);
      r
  }
}
