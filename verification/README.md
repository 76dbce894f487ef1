# Which line an anchor means

Three parts of dsh-better-edit decide which line of a file a short anchor means, and whether an edit can land
on the wrong one. This project models them and proves what they promise.

* **Line identity.** `pairing.ts` aligns the previous version of a file with the current one; `lineage-store.ts`
  turns the pairs into line identities that last as long as the path does, and binds served anchors to them as
  leases; `vacuum.ts` evicts old versions.
* **Anchors.** `hash-assign.ts` gives every line a three-character anchor and carries anchors over an edit.
* **Edits.** `anchor-pipeline.ts` and `engine.ts` resolve anchors, verify that a range is still what the session
  was shown, splice text, and run batches; `session-view.ts` records what was shown; `edit-diff.ts` renders the
  outcome. `canonical-path.ts` resolves symbolic links.

Code that works by changing things step by step is modelled as methods with loops and as classes
(`RankDisplacementIndex`, `Aligner`, `LineageStore`, `SessionView`), each proved against a specification function
or a declarative predicate; the theorems are lemmas about those. A few things are taken as given: digests,
content keys and the 32-bit hash are arbitrary functions, one store transaction is one step, the line diff is any
list of parts without two unchanged parts in a row, and a file version's digests are determined by its content
key where a lemma says so (`Keyed`, `KeyMeans`).

## How the files fit together

| file | about |
|---|---|
| `LcsAlignment.dfy` | the leaf alignment and its capped count of optimal embeddings |
| `RankDisplacementIndex.dfy`, `PinChains.dfy`, `PinBackbone.dfy` | the minimum index and the stable backbone of pins |
| `Pairing.dfy`, `PairingDrift.dfy`, `PairingOrigin.dfy` | the recursive pairing, its soundness, insertion drift, and where every pair comes from |
| `AnchorSpace.dfy`, `HashAssign.dfy`, `StableHashes.dfy` | anchors, probing, and re-hashing after an edit |
| `Options.dfy`, `Numbers.dfy` | small shared definitions |
| `TextLines.dfy`, `LineSplice.dfy`, `ChangedRange.dfy` | text and lines, and what one splice of characters means on lines |
| `BufferIdentity.dfy` | the identity map of a working buffer |
| `ServedRange.dfy` | resolving two anchors, and the decision to accept a range |
| `Provenance.dfy`, `BatchTracking.dfy`, `BatchEdit.dfy`, `BatchHistory.dfy`, `BatchRun.dfy`, `BatchEvidence.dfy` | batches |
| `LineageTables.dfy`, `LineageIdentity.dfy`, `LineageInheritance.dfy`, `LeaseLifecycle.dfy`, `LeaseEvidence.dfy`, `LineageStore.dfy` | the lineage store |
| `SnapshotVacuum.dfy` | retention |
| `SessionView.dfy`, `EditDiff.dfy`, `CanonicalPath.dfy` | the session's view, the shown diff, symbolic links |

## What turned out not to hold, and when it does

* A replacement that reaches the last line of an unterminated file and ends in an empty line loses that line:
  `EditMeansSplice` gives the exact condition (`LosesLastLine`), in both directions; `LosingInstance` is an instance.
* The retired-anchor checks inside `verifyServedRange` never change whether a range is accepted, only which
  refusal is given: the condition proved in `VerifyServedRange` does not mention the retired set.
* A displaced anchor is not always kept dead: if it was dead already and its entry is swept by the same serve,
  nothing is left of it. `DisplacedIsDead` gives the exact condition; `DisplacedAndFreed` gives a session of four
  serves, from the empty one on, that ends there.
* A symbolic link that a path passes twice is refused as a loop even when no cycle exists, because the visited set is
  kept for the whole path. `RefusedExactly` gives the exact condition: where following links ends at all, the
  resolution agrees if and only if no link occurs twice on the way; `RepeatedLinkIsRefused` is an instance.
* A batch of disjoint items, each acceptable by itself, is not always accepted on the served mirror alone: an item is
  refused exactly when the items applied before it moved it. `AcceptedAgain` and the stages of `RunFileEdits` give
  that condition, `TopDownIsRefused` and `ShiftInstance` show it failing, `BottomUpIsDone` an order in which it never
  does. On leases it holds in every order.
* A kept line can stay unpaired after an edit that only deletes and inserts new lines: `KeptLinesAllPair` gives the
  exact condition, on the scan budget and the leaf limit where they are reached.

## Model

| member | source | states |
|---|---|---|
| `LcsAlignment.ComputeLCSPaths` | src/snapshot-store/pairing.ts:294-383 | unique exactly when the interval has one longest common-subsequence embedding; the pairs are then that embedding |
| `LcsAlignment.OptimaExact` | src/snapshot-store/pairing.ts:276-293 | the first-pair decomposition yields every optimal embedding and nothing else |
| `LcsAlignment.CountStep` | src/snapshot-store/pairing.ts:320-345 | the inclusion-exclusion step on counts capped at two gives the capped count of all optimal embeddings |
| `LcsAlignment.OneOptimum` | src/snapshot-store/pairing.ts:347-350 | a capped count of one means there is exactly one optimal embedding |
| `LcsAlignment.OptimalIffBest` | src/snapshot-store/pairing.ts:308-318 | an embedding is longest exactly when it has the length the table holds |
| `LcsAlignment.LengthTable` | src/snapshot-store/pairing.ts:305-318 | every cell of the suffix table is the optimal length of its region |
| `LcsAlignment.CountTable` | src/snapshot-store/pairing.ts:320-345 | every cell of the count table is the number of optimal embeddings of its region, capped at two |
| `LcsAlignment.TraceBack` | src/snapshot-store/pairing.ts:349-380 | where there is one optimal embedding, the walk through the table follows it to the end |
| `RankDisplacementIndices.RankDisplacementIndex.QueryBelow` | src/snapshot-store/pairing.ts:96-105 | the least value recorded at a coordinate below the given one |
| `RankDisplacementIndices.RankDisplacementIndex.Update` | src/snapshot-store/pairing.ts:107-114 | records a candidate at one coordinate and leaves all others |
| `RankDisplacementIndices.CoverStep` | src/snapshot-store/pairing.ts:110-113 | the climb visits exactly the nodes whose range covers the coordinate |
| `LowerBounds.LowerBound` | src/snapshot-store/pairing.ts:63-72 | the first position whose value is not below the target |
| `PinBackbone.PatienceLengths` | src/snapshot-store/pairing.ts:132-139 | patience piles give every pin the length of the longest increasing chain ending at it |
| `PinBackbone.ComputeLengthAndMinDisplacement` | src/snapshot-store/pairing.ts:123-160 | per pin the longest chain ending there and the least displacement among those |
| `PinChains.LocalIsExact` | src/snapshot-store/pairing.ts:145-158 | the rank-by-rank recurrence over predecessors is exact over all chains |
| `PinChains.MirrorIsExact` | src/snapshot-store/pairing.ts:223-240 | the forward pass over negated, reversed pins is the backward pass |
| `PinBackbone.StableIff` | src/snapshot-store/pairing.ts:206-211 | a pin is on every longest, lightest chain exactly when it is optimal and alone at its rank |
| `PinBackbone.FindStablePinBackbone` | src/snapshot-store/pairing.ts:212-269 | exactly the pins on every longest increasing chain of least displacement, in order |
| `PinBackbone.SomeOptimalChain` | src/snapshot-store/pairing.ts:202-211 | there is always such a chain, so the intersection is over something |
| `PinBackbone.AscendingPinsAreStable` | src/snapshot-store/pairing.ts:202-211 | pins that already ascend are all kept |
| `Pairing.FindUniquePins` | src/snapshot-store/pairing.ts:171-200 | the pins are the digests that occur once in each of the two intervals |
| `Pairing.UniquePinsExact` | src/snapshot-store/pairing.ts:166-170 | every such line is a pin, no other is, in line order |
| `Pairing.Aligner.AlignRecursive` | src/snapshot-store/pairing.ts:414-469 | adds to the shared pairing exactly the pairs the specification gives, and spends its budget |
| `Pairing.Aligner.AlignBetween` | src/snapshot-store/pairing.ts:425-435 | gaps around the pins left to right, each pin with its own line |
| `Pairing.Aligner.AlignLeaf` | src/snapshot-store/pairing.ts:441-468 | rigid runs zip, small leaves pair when unique, all others pair nothing |
| `Pairing.AlignSound` | src/snapshot-store/pairing.ts:390-399 | any interval, any budget: pairs stay in the interval, join equal digests, ascend on both sides; the budget left is never negative and never grows |
| `Pairing.PairSnapshots` | src/snapshot-store/pairing.ts:406-473 | the pairing the specification gives; the monotonicity check never throws |
| `Pairing.AssertMonotonicPairing` | src/snapshot-store/pairing.ts:390-399 | passes exactly on pairings that ascend on both sides |
| `PairingDrift.KeptLinesPairOnlyWithThemselves` | src/snapshot-store/pairing.ts:406-473 | after deletions and new lines of new digests, under any budget, a kept line pairs with itself or not at all |
| `PairingDrift.KeptLinesAllPair` | src/snapshot-store/pairing.ts:406-473 | under any budget, every kept line pairs with itself exactly when, wherever the two sides still share a digest, the budget covered the scan and no pinless interval was too large for a leaf |
| `PairingDrift.DifferentLinesAllPair` | src/snapshot-store/pairing.ts:406-473 | kept lines that all differ pair at any file size, with a budget for one scan of both files |
| `PairingDrift.ProductionBudget` | src/snapshot-store/pairing.ts:58-61 | the budget the store grants is the greater of 100 000 and four per line of both versions; it is enough for lines that all differ, and for all others where pins nest at most four levels deep and leaves fit |
| `PairingDrift.ScanPerLineIsEnough` | src/snapshot-store/pairing.ts:406-473 | one whole scan per previous line is always enough where leaves fit |
| `PairingDrift.InsertionDrift` | src/snapshot-store/pairing.ts:406-473 | around an inserted block of new digests lines pair only with their shifted selves |
| `PairingDrift.InsertionDriftComplete` | src/snapshot-store/pairing.ts:406-473 | and all of them do, exactly when no scan ran out of budget and no leaf was too large |
| `PairingDrift.InsertionDriftInProduction` | src/snapshot-store/pairing.ts:58-61 | in a file of different lines, of any size, every line survives an insertion under the budget the store grants |
| `PairingOrigin.EveryPairHasOrigin` | src/snapshot-store/pairing.ts:406-473 | under any budget, every pair is a stable pin of a nested interval, a line of a rigid one, or a pair of the one longest embedding of one without stable pins |
| `PairingOrigin.EnoughIsEnough` | src/snapshot-store/pairing.ts:414-469 | any budget that covers the scans gives the same pairs, and exactly the scans are spent |
| `PairingOrigin.PairedExactly` | src/snapshot-store/pairing.ts:406-473 | with such a budget exactly the lines with one of the three origins pair |
| `PairingOrigin.AmbiguousPairsNothing` | src/snapshot-store/pairing.ts:464-468 | a file without a unique pin, not rigid, and without exactly one longest embedding pairs nothing under any budget |
| `PairingOrigin.DuplicatedLine` | src/snapshot-store/pairing.ts:464-468 | a one-line file whose line was duplicated pairs nothing |
| `AnchorSpace.ProbeReaches` | src/hashline/hash-assign.ts:62-67 | for any base, the stride reaches every slot from any start within one round |
| `AnchorSpace.AnchorRoundTrip` | src/hashline/hash-assign.ts:83-90 | slots and three-character anchors are mutually inverse |
| `AnchorSpace.AnchorExactly` | src/hashline/hash-assign.ts:83-90 | the characters of an anchor are the three base-62 digits of its slot, the highest first |
| `AnchorSpace.IdxToHashLoop` | src/hashline/hash-assign.ts:83-90 | the loop builds the anchor of a slot |
| `AnchorSpace.HashToIndexLoop` | src/hashline/hash-assign.ts:186-194 | the loop gives the slot of an anchor, or -1 for a malformed one |
| `HashAssign.CanonExactly` | src/hashline/hash-assign.ts:107-111 | exactly spaces, tabs and line breaks do not count in a line: every other character stays, in its place |
| `HashAssign.NextZeroBit` | src/hashline/hash-assign.ts:131-142 | the first free slot of the probe sequence, found exactly when there is a free one |
| `HashAssign.AssignHash` | src/hashline/hash-assign.ts:143-153 | the line's own slot if free, else the first free slot of the probe from the hint, which moves on; fails exactly when all are used |
| `HashAssign.AssignFresh` | src/hashline/hash-assign.ts:277-285 | fills the blanks with fresh distinct anchors; exhausted exactly when blanks and used slots exceed the space |
| `StableHashes.LineHashesPure` | src/hashline/hash-assign.ts:154-185 | distinct unreserved anchors; exhausted exactly when lines and reserved slots exceed the space |
| `StableHashes.NearestNew` | src/hashline/hash-assign.ts:195-212 | a nearest candidate, the lower one on a tie |
| `StableHashes.MapStableHashes` | src/hashline/hash-assign.ts:213-301 | kept anchors sit on lines of their own text, as many per text as survivors and lines allow, and each on the line nearest to its target among those its predecessors left, the upper one on a tie; the rest are fresh, and a line whose own slot is free has that one; none is removed or given twice; exact exhaustion |
| `StableHashes.RehashSplice` | src/hashline/hash-assign.ts:213-301 | after a range splice every outside anchor sits on its own shifted line, also among duplicates, and no removed anchor reappears; none is given exactly when used and reserved slots and the new lines exceed the space |
| `StableHashes.RehashReformat` | src/hashline/hash-assign.ts:213-301 | a reformat that changes no canonical text returns the old anchors and cannot exhaust the space |
| `StableHashes.RangeOfRemoved` | src/mutation/engine.ts:200-214 | with distinct anchors, the removed anchors name exactly the lines of the range |
| `TextLines.SplitOfRender` | src/utils.ts:14-18 | splitting what lines were rendered to gives the lines back |
| `TextLines.RenderOfSplit` | src/utils.ts:14-18 | rendering the lines of a text gives the text back |
| `LineSplice.BuildIdx` | src/hashline/anchor-pipeline.ts:1142-1159 | the lines, and the offset at which each starts |
| `LineSplice.EditMeansSplice` | src/hashline/anchor-pipeline.ts:1179-1247 | the character splice is the line splice, exactly when it does not lose its last line; what it is otherwise |
| `LineSplice.DeletedLines` | src/hashline/anchor-pipeline.ts:1204-1241 | every deletion that leaves a line leaves exactly the other lines |
| `LineSplice.EmptyExactly` | src/hashline/anchor-pipeline.ts:1173-1241 | exactly which edits leave the empty text |
| `LineSplice.LosingInstance` | src/hashline/anchor-pipeline.ts:1179-1241 | one unterminated text and one edit that loses its last line |
| `ChangedRanges.ChangedRange` | src/hashline/anchor-pipeline.ts:1462-1504 | the reported range holds every difference, starts at the first and ends at the last |
| `BufferIdentity.IdsFromPositions` | src/mutation/engine.ts:680-684 | identities by line and lines by identity say the same |
| `BufferIdentity.PositionsFromIds` | src/mutation/engine.ts:687-694 | the inverse |
| `BufferIdentity.SpliceKeepsIdentities` | src/mutation/engine.ts:711-721 | after any edit the map has one entry per line, every identity sits on the text it sat on, none outside the range is lost |
| `ServedRange.ResolveRange` | src/hashline/anchor-pipeline.ts:375-447 | two anchors resolve exactly when each names one line; in either order the first line comes first |
| `ServedRange.InterceptLeaseBoundaries` | src/hashline/anchor-pipeline.ts:710-772 | accepts exactly live placed leases; exactly when each refusal is given |
| `ServedRange.VerifyRebasedSpan` | src/hashline/anchor-pipeline.ts:794-891 | accepts exactly when every slot of the served window stands for the line in its place |
| `ServedRange.VerifyPlaced` | src/hashline/anchor-pipeline.ts:975-1127 | exactly when each refusal of the later gates is given |
| `ServedRange.VerifyServedRange` | src/hashline/anchor-pipeline.ts:893-1127 | accepts exactly when both boundaries have one served position and the window tells the truth line by line, whatever is retired; each refusal is that of the first gate that fails |
| `ServedRange.AcceptedExactly` | src/hashline/anchor-pipeline.ts:893-1127 | on either route a range is accepted if and only if some window of the mirror of its length has boundaries that are shown nowhere else, and every shown slot tells of its own line the anchor, the recorded text if any, and on leases a live lease; on leases inner slots may be holes, on the mirror alone the window is the range itself without holes |
| `ServedRange.HoleInstance` | src/hashline/anchor-pipeline.ts:839-856 | three lines of which the middle one was never shown: accepted on leases |
| `ServedRange.MirrorAcceptance` | src/hashline/anchor-pipeline.ts:1064-1127 | without leases acceptance means same place, same anchors, same recorded texts |
| `ServedRange.LeasedAcceptance` | src/hashline/anchor-pipeline.ts:774-891 | with leases every shown slot's live lease resolves to its own target line |
| `ServedRange.MovedAcceptance` | src/hashline/anchor-pipeline.ts:774-1127 | an accepted range that moved is accepted with leases wherever it went, on the mirror alone exactly where it was |
| `ServedRange.ShiftInstance` | src/hashline/anchor-pipeline.ts:1064-1127 | one line put in above refuses a range on the mirror alone |
| `ServedRange.BenignShift` | src/hashline/anchor-pipeline.ts:774-793 | lines put in above an acceptable range leave it acceptable |
| `BatchEdit.CollectRemovedHashes` | src/mutation/engine.ts:200-214 | the anchors of the range, from either end; none if a bound is missing |
| `BatchEdit.ApplyEdit` | src/hashline/anchor-pipeline.ts:1249-1440 | exactly when each refusal is given: ambiguous anchors, a range not as shown, a text left empty; every other edit replaces the lines of its verified range |
| `BatchEdit.ApplyOne` | src/mutation/engine.ts:302-401 | exactly when each failure is given, also the exhausted anchors after the retry, and when nothing changes; otherwise spliced and re-hashed together |
| `Provenance.SpliceOne` | src/mutation/engine.ts:738-976 | the simultaneous splice of one range is the plain line splice |
| `Provenance.MergedSplice` | src/mutation/engine.ts:738-976 | one more patch on an untouched range replaces exactly the lines of that range |
| `Provenance.SameLinesPatch` | src/mutation/engine.ts:927-949 | a patch that changes nothing may be counted or not |
| `BatchTracking.TracksSplice` | src/mutation/engine.ts:951-975 | an applied item keeps original lines in order under their anchors, and no removed known anchor comes back |
| `BatchTracking.SplicedGone` | src/mutation/engine.ts:951-956 | the anchors removed so far stay exactly those of the original lines that are gone, after one more item |
| `BatchTracking.WindowCells` | src/mutation/engine.ts:859-917 | in the working buffer an accepted item finds its own original boundary lines; read in full, all its lines |
| `BatchHistory.OverlapRefused` | src/mutation/engine.ts:859-917 | an item whose lines were all read is never accepted over a replaced range |
| `BatchHistory.AtOnceApplied` | src/mutation/engine.ts:951-975 | items that keep apart act as if all at once |
| `BatchRun.IdsFollowSplice` | src/mutation/engine.ts:966-972 | the working identity map stays the original one on the lines that are left |
| `BatchRun.PrePass` | src/mutation/engine.ts:814-857 | the items named are exactly those that would be refused by themselves on the original buffer |
| `BatchRun.AcceptedAgain` | src/mutation/engine.ts:859-917 | an item accepted on the original buffer, whose range nothing applied touches, is accepted again with leases always, on the mirror alone exactly when the items before moved it by nothing |
| `BatchRun.RunFileEdits` | src/mutation/engine.ts:738-976 | runs exactly when every item is acceptable by itself; every item verified again on the working buffer; a batch of disjoint ranges on leases is done in any order unless no text is left or the anchors run out; why and where a run stops; every buffer is the one before it after its item's edit; the retired anchors reported are exactly those on lines some applied item replaced, and among the original anchors exactly those whose line is gone; provenance of every line, anchor and identity; no overlap; on a terminated file disjoint ranges give the simultaneous splice |
| `BatchRun.AnyOrder` | src/mutation/engine.ts:859-976 | a finished batch of disjoint ranges gives the same lines in any order of its items |
| `BatchRun.BottomUpIsDone` | src/mutation/engine.ts:859-976 | from the bottom up a batch is done on either route, unless no text is left or the anchors run out |
| `BatchRun.TopDownIsRefused` | src/mutation/engine.ts:859-976 | of two items from the top down, the lower is refused after a changed line count exactly on the mirror alone |
| `BatchEvidence.PlacesMove` | src/mutation/engine.ts:859-976 | the identity map that follows the working buffer places identities only on lines of their digest |
| `BatchEvidence.BatchLinesAreServedLines` | src/mutation/engine.ts:859-976 | every item a batch accepted on leases found, on the buffer of its turn, only lines with the digest recorded when they were shown |
| `LineageIdentity.InheritedFrom` | src/snapshot-store/lineage-store.ts:212-226 | an inherited identity comes from a previous line with the same digest |
| `LineageIdentity.NewRowsWellNumbered` | src/snapshot-store/lineage-store.ts:436-486 | the identities of a new snapshot are pairwise different |
| `LineageIdentity.CommitKeeps` | src/snapshot-store/lineage-store.ts:379-495 | adopt, repair and fresh commits keep every constraint, and bind only identities the counter had not reached |
| `LineageIdentity.RunKeeps` | src/snapshot-store/lineage-store.ts:379-495 | over every run of commits, evictions, losses and deletions the constraints hold and bindings only grow |
| `LineageIdentity.IdentityForGood` | src/snapshot-store/lineage-store.ts:379-495 | one identity, one digest, at any two moments of a path's life, in rows and leases |
| `LineageIdentity.NeverReissued` | src/snapshot-store/lineage-store.ts:454-462 | a commit issues only identities at or above every earlier counter and below the new one |
| `LineageIdentity.DeleteKeeps` | src/snapshot-store/lineage-store.ts:575-597 | deleting a path takes its versions, rows, leases and counter away together, and nothing of any other path |
| `LineageIdentity.HitIsRow` | src/snapshot-store/lineage-store.ts:353-359 | a served anchor stands for the first line of the snapshot that carries it, and for none exactly when no line does |
| `LineageIdentity.ServedIsLeased` | src/snapshot-store/lineage-store.ts:342-376 | every served anchor the snapshot knows is leased to its first line, for its last serve |
| `LineageIdentity.LeaseSteps` | src/snapshot-store/lineage-store.ts:336-376 | a commit grants, retires or leaves each lease, and nothing else |
| `LineageInheritance.PairedLinesKeepIds` | src/snapshot-store/lineage-store.ts:423-447 | a line paired with a line of the last stored version has the identity of that line in the new version |
| `LineageInheritance.NewLinesAreNumbered` | src/snapshot-store/lineage-store.ts:436-486 | the unpaired lines take, in order, exactly the identities between the old counter and the new one |
| `LineageInheritance.KeptLinesKeepIds` | src/snapshot-store/lineage-store.ts:423-486 | in a file of different lines every line kept from the last version keeps its identity |
| `LineageInheritance.AdoptedKeepsIds` | src/snapshot-store/lineage-store.ts:388-422 | a stored version that fits the content is adopted: all its identities stay, only its anchors are refreshed, nothing else changes |
| `LineageInheritance.InheritedIffPaired` | src/snapshot-store/lineage-store.ts:212-226 | a line inherits from the line it is paired with, and nothing if it is paired with none |
| `LineageInheritance.PositionsExactly` | src/snapshot-store/lineage-store.ts:513-552 | the identity map of a buffer, exactly: every identity of a stored content at its line; else those of the last version where their lines are paired; nothing for a first content |
| `LeaseLifecycle.LiveLeasesAreInSnapshot` | src/snapshot-store/lineage-store.ts:488-494 | after a commit every live lease of the path stands for a line of the resolved snapshot |
| `LeaseLifecycle.RevivedOnlyByGrant` | src/snapshot-store/lineage-store.ts:323-376 | a retired lease is live again only if this commit served its anchor |
| `LeaseLifecycle.SnapshotShowsContent` | src/snapshot-store/lineage-store.ts:388-486 | the resolved snapshot shows the committed digests and the current anchors |
| `LeaseLifecycle.LeasesAlwaysAnswer` | src/snapshot-store/vacuum.ts:106-114 | through commits, repairs, vacuums and deletions a live lease within the session time still has its version, with its line and digest |
| `LeaseLifecycle.FromEmptyStore` | src/snapshot-store/vacuum.ts:106-114 | the same for every state reachable from an empty store |
| `LeaseEvidence.PositionsFit` | src/snapshot-store/lineage-store.ts:513-552 | the identity map of any buffer, committed or paired, places identities only on lines of their digest |
| `LeaseEvidence.LeaseViewsExactly` | src/hashline/anchor-pipeline.ts:710-772 | exactly the leases of this session on this file are looked at, each as it is stored |
| `LeaseEvidence.RunKeyed` | src/snapshot-store/lineage-store.ts:35-37 | if the content key determines the digests, stored snapshots show the digests of their key throughout a run |
| `LeaseEvidence.AcceptedLinesAreServedLines` | src/hashline/anchor-pipeline.ts:794-1127 | a range accepted on leases from the store: every shown line has, now, the digest recorded when it was shown |
| `LineageStores.PairLineIds` | src/snapshot-store/lineage-store.ts:212-226 | the inherited identities are those the pairing gives |
| `LineageStores.DiagnoseUnusableLineage` | src/snapshot-store/lineage-store.ts:243-273 | unusable exactly when empty, of wrong length, misnumbered or of other digests |
| `LineageStores.LineageStore.CommitSnapshot` | src/snapshot-store/lineage-store.ts:379-495 | the tables after one transaction, row by row, are those of the specification; a wrong number of anchors changes nothing |
| `LineageStores.LineageStore.GrantLeases` | src/snapshot-store/lineage-store.ts:342-376 | the leases after the sequential upserts |
| `LineageStores.LineageStore.PositionsOf` | src/snapshot-store/lineage-store.ts:513-552 | the identity map of a buffer, with nothing written |
| `LineageStores.LineageStore.DeleteByPath` | src/snapshot-store/lineage-store.ts:575-597 | the whole family goes, no other path is touched |
| `LineageStores.LineageStore.VacuumSnapshots` | src/snapshot-store/vacuum.ts:220-329 | only the swept versions go, none pinned or protected; counters and leases stay |
| `SnapshotVacuum.Sweep` | src/snapshot-store/vacuum.ts:267-298 | the eviction rule decides every row, no evicted id is pinned; totals, pinned bytes and deferral are those of what is left |
| `SnapshotVacuum.EvictedExactly` | src/snapshot-store/vacuum.ts:267-288 | which versions a sweep takes, row by row and in numbers: not pinned, and at its turn more than fifty megabytes held or more versions of its path than the newest one allows |
| `SnapshotVacuum.RetentionExactly` | src/snapshot-store/vacuum.ts:137-149 | a path keeps between two and ten versions, and within those limits as many as fit ten megabytes at forty bytes a line |
| `SnapshotVacuum.PinnedExactly` | src/snapshot-store/vacuum.ts:106-114 | pinned are exactly the protected versions, those an undo can restore, and those whose path and key a lease holds: live and used within seven days, or retired within one hour |
| `SnapshotVacuum.PinnedStay` | src/snapshot-store/vacuum.ts:277-281 | no evicted id is pinned, and what is left holds every pinned row, in order |
| `SnapshotVacuum.DeferralMeansPinned` | src/snapshot-store/vacuum.ts:289-298 | over budget after the sweep means only pinned versions are left |
| `SnapshotVacuum.WindowKept` | src/snapshot-store/vacuum.ts:141-149 | a path keeps at most its window, or its pinned versions if those are more |
| `SnapshotVacuum.SecondSweep` | src/snapshot-store/vacuum.ts:210-219 | a second sweep with the same pins evicts nothing |
| `EditDiff.GenDiff` | src/edit-diff.ts:84-182 | exactly the rows the specification gives for this context; every row tells what stands at its true place in both files, hidden spans are counted, added lines are all shown |
| `EditDiff.FormatRemovedLines` | src/edit-diff.ts:44-69 | removed lines in full, or head, count and tail, with the old cursor exact |
| `EditDiff.RemovedExactly` | src/edit-diff.ts:44-69 | up to six removed lines are all shown; of more, two at either end around the count of the others |
| `EditDiff.EmitContext` | src/edit-diff.ts:126-176 | of an unchanged run exactly the specified rows, and both cursors exact before a further change |
| `EditDiff.ShownIffNear` | src/edit-diff.ts:133-150 | an unchanged line is shown exactly when it is within the context of a change; a middle run of at most two contexts is whole |
| `EditDiff.Markers` | src/edit-diff.ts:79-81 | one untouched marker per longer middle run, counting all but a context at either end; a leading one only as the first row |
| `EditDiff.ServedAscend` | src/edit-diff.ts:71-83 | served rows come in increasing position, each with the anchor of its line |
| `EditDiff.ServedExactly` | src/edit-diff.ts:71-182 | a position is served with an anchor exactly when some shown row has a new line there, under that anchor |
| `EditDiff.AnchorsShown` | src/edit-diff.ts:84-182 | every shown row has the text at its place in the files, a new line under its new anchor, a removed one under its old anchor |
| `SessionViews.MergeServedRows` | src/session-view.ts:59-83 | each slot shows the last row written to it, else what it showed; no trailing holes |
| `SessionViews.UnnamedSlotStays` | src/session-view.ts:50-58 | a slot that no row names keeps what it showed, unless it is cut off or cleared |
| `SessionViews.LastRowWins` | src/session-view.ts:59-83 | of several rows for one slot the last one counts |
| `SessionViews.FullReadStartsOver` | src/session-view.ts:303-363 | after a full read the mirror is the anchors of the file, and nothing is dead or counted as shown |
| `SessionViews.RetiredExact` | src/session-view.ts:191-219 | which dead anchors are there after a partial serve, exactly |
| `SessionViews.DisplacedIsDead` | src/session-view.ts:158-219 | when a displaced anchor is dead afterwards, exactly |
| `SessionViews.DisplacedAndFreed` | src/session-view.ts:191-219 | a session of four serves after which an anchor displaced by the last is not kept dead |
| `SessionViews.SessionView.RecordServed` | src/session-view.ts:303-363 | a full read starts over; a partial one merges, sweeps and retires |
| `SessionViews.SessionView.RecordServedTruncated` | src/session-view.ts:374-429 | the same with later slots cleared |
| `SessionViews.UnseenStays` | src/session-view.ts:170-190 | over any run of partial serves, an entry without a slot, or whose slot was not shown, is still there |
| `SessionViews.PagedReadsDrain` | src/session-view.ts:170-190 | paged reads that cover the file drain every entry with a slot in it |
| `CanonicalPaths.CanonicalSync` | src/canonical-path.ts:33-61 | the loop ends and agrees with the recursive form |
| `CanonicalPaths.CanonicalTwice` | src/canonical-path.ts:33-91 | a resolved path has no link among its existing prefixes and resolves to itself |
| `CanonicalPaths.WalkIsPlain` | src/canonical-path.ts:33-61 | where plain resolution ends, the walk agrees if no link occurs twice on the way or was visited before, and is a loop otherwise |
| `CanonicalPaths.RefusedExactly` | src/canonical-path.ts:33-91 | the resolution is where the path leads exactly when no link occurs twice on the way; a loop exactly when the path leads nowhere or passes a link twice |
| `CanonicalPaths.LinkStandsForTarget` | src/canonical-path.ts:33-61 | what comes after a link leads where it leads after the target of the link, one link later |
| `CanonicalPaths.FrontFirst` | src/canonical-path.ts:33-61 | what the front of a path leads to, if it exists, may be put in its place; the links on the two ways add up |
| `CanonicalPaths.RepeatedLinkIsRefused` | src/canonical-path.ts:49-51 | a link passed twice without a cycle is refused |

## Left out

- Filesystem, SQLite, transactions and busy retry, write-ahead logging, quarantine: one committed unit is one step, and concurrent processes are ordered by their transactions.
- Texts of errors, warnings and notices, prompts, metrics, drift notices: only which outcome is reached is modelled.
- Encoding detection and scoring, line-ending restoration, byte-order marks: buffers are sequences of characters.
- Prefix stripping, the served-echo refusal and the never-served hints: replacement lines reach the splice unchanged and already split into lines.
- The line diff and the hash functions: a part list without adjacent unchanged parts, and arbitrary functions. Equal digests are not shown to be equal texts.
- Widths of machine numbers: 32-bit table entries and line numbers are unbounded here, and the flat tables with a stride are two-dimensional arrays.
- The bitset packed in 32-bit words is an array of booleans, and the caches of anchors and canonical texts are left out.
- Canonical texts recorded for served rows are an input of the range check; how `recordServed` updates them is not modelled.
- Store corruption other than the loss of a snapshot's lineage or a clash of content keys.
- `RunFileEdits`: the last, persisting re-hash, the retry of a failed identity read, line counts and the union range.
- `ApplyOne`: the retry on an exhausted space is modelled; that it also clears the stored retired anchors is not.
- `CanonicalSync`: targets of links are absolute and normalized already, and of the errors of the filesystem only the missing entry and the file used as a directory exist.
- `VacuumSnapshots`: the ordered listing of versions is an input; the throttled reports and the skip inside an open transaction are not modelled.
- The noop guard, undo, configuration, tool registration, previews: thin next to the parts above.
