# GFTrackCand hit list, modelled in Dafny

This project models the hit list of a GENFIT track candidate (`GFTrackCand`).
A candidate keeps four parallel lists. Each hit has a detector id, a hit id,
a plane id and an ordering coordinate `rho`. The model covers the operations
on these lists:

- the three constructors;
- `addHit`, `GetHitIDs`, `reset` and `HitInTrack`;
- `operator==` and `append`;
- both forms of `sortHits`.

Each operation is a pure function on an immutable `TrackCand` datatype. The
size-mismatch exception of `sortHits(indices)` becomes the `SizeMismatch`
case of `SortResult`.

Files:

- `permutations.dfy` (module `Permutations`): index permutations. A
  permutation is an index list whose multiset equals that of `0..n-1`. The
  module proves that rearranging by a permutation keeps every element.
- `rho_order.dfy` (module `RhoOrder`): the `std::pair<double, int>` order
  vector of `sortHits()`. `std::sort` is modelled by an insertion sort.
  `SortedUnique` proves that any correct sort gives the same result.
- `track_cand.dfy` (module `TrackCandidate`): the datatype and the operations.
- `track_cand_properties.dfy` (module `TrackCandidateProperties`): lemmas that
  relate operations to each other, plus the findings below.

Modelling assumptions about accessors declared in the class header:

- `getNHits()` is the length of the detector-id list (`NHits`).
- `getHit(i, ...)` reads position `i` of the detector-id, hit-id and rho
  lists (`GetHit`).
- The three-argument `addHit` stores some default plane id. Its value is not
  visible, so `Append` takes it as the parameter `defaultPlane`. Every
  property holds for any value.

Unsigned ids are the newtype `uint32`. The detector filter of `GetHitIDs` is
`int32`. `rho` is a `real`.

Undefined behaviour in the C++ (reading past the end of a vector) becomes a
precondition. Each precondition of an operation asks for exactly the entries
the code reads or writes. Two examples:

- `GetHitIDs` needs a detector id for every hit id only when its filter is
  non-negative. A negative filter returns `fHitId` without reading `fDetId`
  (core/GFTrackCand.cxx:56-57).
- `HitInTrack` reads `fHitId[i]` only after `fDetId[i]` matched
  (core/GFTrackCand.cxx:78-79). So its precondition `HitIdsReadableOn` asks
  for a hit id only at the positions whose detector id matches.

One member asks for more. `SelfAppendAfter`, the state of `c.append(c)`
after k rounds, requires `Readable(c)`: hit ids and rhos for every hit. The
loop itself reads only position i in round i. The stronger requirement lets
the contract promise that the grown candidate is `Readable` again.

`Paired` is the class invariant: the detector-id and hit-id lists have equal
length. The constructors assert it, and every operation keeps it. It implies
the preconditions of `GetHitIDs`, `HitInTrack` and `Equals`. The
preconditions on rhos and plane ids (`Readable`, `Covers`) follow from
`WellFormed`: all four lists have the same length. The id constructors do
not establish `WellFormed` (see Findings). After `reset` and new hits, a
candidate is `Paired` and `Covers` its hits but is not `WellFormed`. The
sorting lemmas therefore require only `Paired` and `Covers`.

The only design statement in the source is the comment at
core/GFTrackCand.cxx:131: all four lists must have the same size. In three
places the code breaks that invariant or fails on it. The model follows the
code:

- `reset` leaves `fRho` and `fPlaneId` as they were.
- The constructors store no plane ids.
- `sortHits()` rejects every candidate that has hits (see Findings).

`HitsOnDetector`, the loop of `GetHitIDs` (core/GFTrackCand.cxx:60-65), has
no contract of its own. The lemma `HitsOnDetectorMatches` carries its
specification, and `GetHitIDs` states the result through that lemma.

## Model

| member | source | states |
|---|---|---|
| TrackCandidate.Empty | core/GFTrackCand.cxx:28 | the default constructor gives a candidate with no hits whose four lists agree in length |
| TrackCandidate.FromIds | core/GFTrackCand.cxx:32-37 | the id constructor needs equal-length id lists (the assert), keeps them, sets one zero rho per hit and stores no plane id |
| TrackCandidate.FromIdsAndRhos | core/GFTrackCand.cxx:38-43 | the rho constructor needs all three lists of equal length (both asserts), keeps them and stores no plane id |
| TrackCandidate.AddHit | core/GFTrackCand.cxx:45-52 | each of the four lists grows by exactly one; the new values are last; earlier entries are unchanged; the hit count rises by one; list parity is kept |
| TrackCandidate.HitsOnDetectorMatches | core/GFTrackCand.cxx:60-65 | the filtering loop returns, in order, the hit ids at exactly the positions below the hit-id count whose detector id equals the filter |
| TrackCandidate.GetHitIDs | core/GFTrackCand.cxx:54-67 | a negative filter returns the whole hit-id list; otherwise the result is the hit ids at the matching positions in their original order; the result is never longer than the hit-id list |
| TrackCandidate.Reset | core/GFTrackCand.cxx:69-73 | detector-id and hit-id lists become empty; rhos and plane ids are left exactly as they were |
| TrackCandidate.HitInTrackFrom | core/GFTrackCand.cxx:77-82 | the scan from position i answers true iff some position at or after i carries both the detector id and the hit id |
| TrackCandidate.HitInTrack | core/GFTrackCand.cxx:75-83 | true iff one position carries both ids; the hit-id list need only reach the positions whose detector id matches |
| TrackCandidate.StdEqual | core/GFTrackCand.cxx:87-88 | `std::equal` is true iff the first range equals the same-length start of the second |
| TrackCandidate.Equals | core/GFTrackCand.cxx:85-90 | false when hit counts differ; otherwise true iff detector ids and hit ids agree position by position; rho and plane ids are not consulted |
| TrackCandidate.AppendFirst | core/GFTrackCand.cxx:111-114 | after k rounds of the loop, each list is the original followed by the first k entries of the argument's list; plane ids are followed by k default plane ids |
| TrackCandidate.Append | core/GFTrackCand.cxx:108-117 | the result is the original hits followed by the argument's hits in its order; the hit count is the sum; plane ids get the default; parity is kept |
| TrackCandidate.Overwrite | core/GFTrackCand.cxx:170-173 | `std::copy` onto the start of a list replaces the first entries and keeps the length and the tail |
| TrackCandidate.SortHitsBy | core/GFTrackCand.cxx:149-174 | an index list whose length differs from the hit count gives `SizeMismatch` and no new candidate; otherwise hit i of the result is old hit `indices[i]`; lengths and entries past the hit count are unchanged |
| TrackCandidate.RhoOrderOf | core/GFTrackCand.cxx:131-138 | the sorted order vector has one (rho, index) pair per hit; it is sorted by rho, then by index; its indices are a permutation of the hit positions |
| TrackCandidate.SortIndicesAsWritten | core/GFTrackCand.cxx:140-143 | the index list passed on has twice the hit count; its first half is zeros; its second half is exactly the indices of the sorted order vector, a permutation of the hit positions |
| TrackCandidate.SortHitsAsWritten | core/GFTrackCand.cxx:130-146 | the rho sort throws the size error for every candidate with a hit and leaves a candidate without hits as it is |
| TrackCandidate.SortHitsByRho | core/GFTrackCand.cxx:130-146 | the rho sort as evidently intended: it always succeeds; hit i of the result is the hit at position i of the sorted order vector; the result's rhos are non-decreasing; hits with equal rho keep their original relative order; the multiset of hit records is unchanged |
| TrackCandidate.ResetAll | core/GFTrackCand.cxx:70-73 | `reset` as evidently intended: all four lists are empty, so parity holds |
| TrackCandidate.FromIdsWithPlanes | core/GFTrackCand.cxx:32-37 | the id constructor as evidently intended: one plane id per hit, so all four lists agree |
| TrackCandidate.SelfAppendAfter | core/GFTrackCand.cxx:111-114 | in `c.append(c)`, after k rounds the candidate has k more hits and every list has k more entries; the original entries of all four lists are unchanged |
| Permutations.PermutePreservesMultiset | core/GFTrackCand.cxx:162-168 | gathering a list through a permutation of its positions keeps every element with its multiplicity |
| RhoOrder.Insert | core/GFTrackCand.cxx:138 | inserting into a sorted order vector keeps it sorted and adds exactly the one pair |
| RhoOrder.SortPairs | core/GFTrackCand.cxx:138 | the sort result is ordered by the `std::pair` order and is a rearrangement of its input |
| RhoOrder.SortedUnique | core/GFTrackCand.cxx:138 | two sorted rearrangements of the same pairs are equal, so any correct `std::sort` gives the modelled order |
| RhoOrder.Order | core/GFTrackCand.cxx:134-138 | the order vector of the first n rhos pairs each rho with its own index; it is sorted; its indices are a permutation of 0..n-1 |
| RhoOrder.OrderSortsByRho | core/GFTrackCand.cxx:134-138 | in the sorted order, rhos are non-decreasing and equal rhos keep increasing index order |
| RhoOrder.OrderOfSortedIsIdentity | core/GFTrackCand.cxx:134-138 | when the rhos are already non-decreasing, the sorted order is the identity |
| TrackCandidateProperties.GetHitIDsAgreesWithHitInTrack | core/GFTrackCand.cxx:54-83 | for a non-negative filter d, h is among `GetHitIDs(d)` iff `HitInTrack(d, h)` |
| TrackCandidateProperties.HitsOnDetectorConcat | core/GFTrackCand.cxx:60-65 | filtering two concatenated hit lists gives the filtered first list followed by the filtered second |
| TrackCandidateProperties.AddHitThenGetHitIDs | core/GFTrackCand.cxx:45-67 | after `addHit(d, h, ...)`, `GetHitIDs(f)` is the old answer followed by h exactly when f is negative or equals d |
| TrackCandidateProperties.AddHitThenHitInTrack | core/GFTrackCand.cxx:45-83 | after `addHit(d, h, ...)`, (d, h) is in the track and every other pair is in it iff it was before |
| TrackCandidateProperties.HitInTrackNeedsBothIds | core/GFTrackCand.cxx:75-83 | with hits (1, 10) and (2, 20), the pairs (1, 20) and (2, 10) are not in the track: a match on one id alone is not enough |
| TrackCandidateProperties.GetHitIDsWildcardReadsNoDetectorIds | core/GFTrackCand.cxx:56-57 | with no detector ids and hit ids [5], the negative filter -1 is allowed and returns [5] |
| TrackCandidateProperties.HitInTrackReadsHitIdsOnMatch | core/GFTrackCand.cxx:77-82 | with detector ids [1] and no hit ids, a query for detector 2 is defined and false, while a query for detector 1 would read past the hit-id list |
| TrackCandidateProperties.ResetEmptiesHitQueries | core/GFTrackCand.cxx:54-83 | after `reset` the hit count is zero, `GetHitIDs` returns nothing for any filter, and no pair is in the track |
| TrackCandidateProperties.EqualsReflexive | core/GFTrackCand.cxx:85-90 | every candidate equals itself |
| TrackCandidateProperties.EqualsSymmetric | core/GFTrackCand.cxx:85-90 | equality does not depend on argument order |
| TrackCandidateProperties.EqualsTransitive | core/GFTrackCand.cxx:85-90 | equality is transitive |
| TrackCandidateProperties.EqualsIgnoresRhoAndPlane | core/GFTrackCand.cxx:85-90 | replacing rhos and plane ids does not affect equality |
| TrackCandidateProperties.EqualsIsOrderSensitive | core/GFTrackCand.cxx:85-90 | the same two hits added in opposite orders give unequal candidates |
| TrackCandidateProperties.AppendThenHitInTrack | core/GFTrackCand.cxx:75-117 | a pair is in `append(a, b)` iff it is in a or in b |
| TrackCandidateProperties.AppendThenGetHitIDs | core/GFTrackCand.cxx:54-117 | `GetHitIDs` of `append(a, b)` is a's answer followed by b's, for every filter |
| TrackCandidateProperties.AppendEmpty | core/GFTrackCand.cxx:108-117 | appending a candidate without hits changes nothing, plane ids included |
| TrackCandidateProperties.AppendExample | core/GFTrackCand.cxx:108-117 | appending hit (2, 20, 0.1) to hit (1, 10, 0.5) gives those two hits in that order, and a count of 2 |
| TrackCandidate.SortHitsByPermutation | core/GFTrackCand.cxx:149-174 | a permutation index list is accepted; hit i of the result is the old hit at `indices[i]`; the multiset of (detector, hit, plane, rho) records is kept |
| TrackCandidateProperties.SortHitsByKeepsMembership | core/GFTrackCand.cxx:149-174 | for every paired candidate that covers its hits, reused after `reset` included, a permutation index list keeps exactly the set of pairs that `HitInTrack` accepts |
| TrackCandidateProperties.ReusedCandidateKeepsMembership | core/GFTrackCand.cxx:149-174 | a candidate refilled after `reset` has more rhos than hits, yet the one-entry index list sorts it and (3, 30) stays in the track |
| TrackCandidateProperties.SortHitsByIdentity | core/GFTrackCand.cxx:149-174 | the identity index list gives back the same candidate |
| TrackCandidateProperties.SortHitsByRhoOfSorted | core/GFTrackCand.cxx:130-174 | a candidate already in rho order is unchanged by the intended rho sort |
| TrackCandidateProperties.SortHitsByRhoIdempotent | core/GFTrackCand.cxx:130-174 | sorting by rho twice gives the same result as sorting once |
| TrackCandidateProperties.SortHitsAsWrittenRejectsOneHit | core/GFTrackCand.cxx:140-155 | for one hit, the index list passed on is [0, 0] and the size error is thrown, though the intended sort succeeds |
| TrackCandidateProperties.ResetBreaksParity | core/GFTrackCand.cxx:70-73 | `reset` on a candidate with hits leaves more rhos than hits |
| TrackCandidateProperties.ResetThenAddHitReadsStaleRho | core/GFTrackCand.cxx:45-73 | after `reset` and one `addHit`, hit 0 reports the rho of the cleared hit |
| TrackCandidateProperties.ResetAllThenAddHit | core/GFTrackCand.cxx:45-73 | after the intended reset and one `addHit`, hit 0 is exactly the added hit |
| TrackCandidateProperties.FromIdsCannotBeSorted | core/GFTrackCand.cxx:32-37 | a candidate built from at least one id pair cannot be given a matching-size index list without reading past the plane-id list |
| TrackCandidateProperties.FromIdsWithPlanesCanBeSorted | core/GFTrackCand.cxx:32-37 | with plane ids stored, every permutation can be applied and keeps the hits |
| TrackCandidateProperties.SelfAppendNeverExits | core/GFTrackCand.cxx:111 | in `c.append(c)` with at least one hit, the loop condition still holds after any number k of rounds |
| TrackCandidateProperties.AppendSnapshotDoubles | core/GFTrackCand.cxx:108-117 | appending a copy of a candidate to itself doubles its detector-id and hit-id lists |

## Left out

- `setComplTrackSeed` (core/GFTrackCand.cxx:119-127) is left out. It normalises a floating-point vector and divides by the momentum magnitude. It also reads the charge from the `TDatabasePDG` singleton, a foreign call whose result is not visible.
- `Print` (core/GFTrackCand.cxx:92-106) is left out: it only writes to the console, and uses ROOT's `TVector3::Print`.
- `ClassImp`, the destructor and ROOT persistence are left out: they have no effect on the hit lists.
- The seed fields (`fCurv`, `fDip`, `fInv`, `fQoverpSeed`, `fMcTrackId`, `fPdg`, seed vectors and errors) are left out: these operations only store them.
- `rho` is an exact `real`. IEEE rounding and the behaviour of `std::sort` on NaN are not modelled.
- Sizes and indices are unbounded `nat`. The truncation of a hit count of 2^32 or more to `unsigned int` is not modelled. Neither is the conversion of an `unsigned int` index of 2^31 or more to the `int` second of the order vector's `std::pair<double, int>` (core/GFTrackCand.cxx:134-136), which would make such an index negative and change the tie-break between equal rhos.
- `SortHitsBy` accepts any in-range index list, as the code does, duplicates included. Only for a permutation does the model prove that hits are preserved. The code does not check this.
- `NHits`, `GetHit` and the default plane id of the three-argument `addHit` come from the class header, which is not part of this model. They are stated as assumptions above, not checked against code.

## Findings

| source | as written | input that shows it | evidently intended | confidence | as-written member | corrected member |
|---|---|---|---|---|---|---|
| core/GFTrackCand.cxx:140-142 | `indices` is created with `nHits` zero entries, and the sorted indices are then pushed after them. It ends up with 2·nHits entries, so the size check at line 152 throws. | one hit, `addHit(7, 3, 1.5, 0)`, then `sortHits()` | one index per hit, so the hits are reordered by rho | high; not executed | `TrackCandidate.SortHitsAsWritten`, `TrackCandidateProperties.SortHitsAsWrittenRejectsOneHit` | `TrackCandidate.SortHitsByRho`, `TrackCandidateProperties.SortHitsByRhoIdempotent` |
| core/GFTrackCand.cxx:72 | `reset` clears only `fDetId` and `fHitId`. A later `addHit` puts its rho after the stale ones. | `addHit(1, 10, 0.5, 0)`, `reset()`, `addHit(2, 20, 0.1, 0)`: `getHit(0)` reports rho 0.5 | all four lists cleared together | medium; not executed | `TrackCandidate.Reset`, `TrackCandidateProperties.ResetThenAddHitReadsStaleRho` | `TrackCandidate.ResetAll`, `TrackCandidateProperties.ResetAllThenAddHit` |
| core/GFTrackCand.cxx:32-43 | The constructors fill `fRho` but never `fPlaneId`, so `sortHits(indices)` reads past the end of the plane-id list. | constructor with `detIDs = {1}`, `hitIDs = {10}`, then `sortHits({0})` reads `fPlaneId[0]` of an empty vector | one plane id stored per hit | medium; not executed | `TrackCandidate.FromIds`, `TrackCandidateProperties.FromIdsCannotBeSorted` | `TrackCandidate.FromIdsWithPlanes`, `TrackCandidateProperties.FromIdsWithPlanesCanBeSorted` |
| core/GFTrackCand.cxx:111 | The loop bound `rhs.getNHits()` is re-read every round. When `rhs` is the candidate itself, each round adds a hit, so the loop never ends. | a candidate with one hit, then `c.append(c)` | append a snapshot of the argument, doubling the list | medium; not executed | `TrackCandidate.SelfAppendAfter`, `TrackCandidateProperties.SelfAppendNeverExits` | `TrackCandidate.Append`, `TrackCandidateProperties.AppendSnapshotDoubles` |
