# A verified model of the bucket list, and of five small libraries beside it

The ledger of this system is kept in a *bucket list*: a log-structured merge
tree of levels, each with a `curr` bucket, a `snap` bucket and a pending merge.
Every closed ledger adds a batch of created, updated and deleted entries to
level 0. At multiples of half a level's size a level spills: its `curr` becomes
its `snap`, the next level commits its pending merge and starts a new one.
Merges keep an INIT/LIVE/DEAD lifecycle per key. Old protocols elide entries
shadowed by younger levels, and the oldest level drops tombstones. The main
result is that all of this is invisible to a reader: after a run of well-formed
batches through any upgrades, reading the buckets newest first gives exactly the
plain map that the batches produce, exactly unless the protocol versions allow a
kind of merge described below.

Beside it stand the block rotation of `getopt_long`, portable 128-bit
arithmetic, the base 16/32/64 codecs, the word-packed bit set, and the JSON
writer and reader.

## How the proof goes

*Bucket list.* `Schedule` gives every bucket a closed-form range of ledgers.
`Buckets` and `ListModel` are the merge and addBatch as functions on values;
`Runs` is a run of batches beside the plain map. The invariant in `Refinement`
says that every bucket, pending merges included, accounts for the batches of its
range: it records the net effect on each key, or what elision may leave of it
once a later batch touched the key again. What that is depends on whether the
batches involved are from before protocol 11, when there was no INIT and merges
elided anything shadowed, or from 11 on, when only LIVE entries are elided.
Merging adjacent accounts gives the account of the joined range. From that
follow the refinement, the lifecycle rule, independence of merge order, restart
transparency and catch-up.

Through upgrades the refinement has an exact condition. A merge is *harmful* if
the newest ledger it takes in is from before 11 and it runs at a version below
11, although the last ledger before it is started is from 12 on, and it does not
reach back to ledger 1. Such a merge elides a deletion under a younger creation; once that
creation and a younger deletion have cancelled out, whatever is older shows
again. The comment on merge versions (src/bucket/Bucket.cpp:329-361) describes
this and says that taking the shadows' versions into account prevents it; the
code below it ignores shadow versions from 12 on, and the model follows the code.
`Versions` computes the META versions of all buckets from the protocol versions
alone, so whether a merge is harmful can be told without knowing any batch.
`RightIffHarmless` says that all well-formed runs with given never decreasing
versions read as the ledger throughout if and only if no harmful merge is
committed. One half is `LookupIsLedger`. For the other, `Harm` takes the first
harmful merge to be committed and gives a run with the same versions in which a
deleted entry comes back at that very ledger. Runs that stay below 12, runs from
11 on and lists of up to three levels have no harmful merge. Independence of
merge order and restart transparency are stated from 12 on, where buckets are
exact. Protocol safety covers all runs of never decreasing versions.

*The code that runs.* `Files`, `Iterators`, `MergeRun`, `FreshBucket`,
`BucketList` and `Applicator` follow the source statement by statement on
sorted record files, cursors and levels updated in place, and are proved to do
what the functions on values describe, errors included. `Ledgers` and
`CatchUpRun` put both together, for whole runs and for catching up from one.

*Libraries.* `GetoptLong` shows that the gcd-many cycles are disjoint and cover
the two blocks, hence that rotating along them exchanges the blocks. `UInt128`
and `UInt128Product` relate two-word arithmetic to integers. `BitStrings`
serves `Basen`, where bytes and digits are two spellings of one bit string, and
`CBitset`, where words spell a set of numbers. `JsonText` and `JsonParse` are
writer and reader as functions of a value and of a text. `JsonStrings` and
`JsonGrammar` give the texts of RFC 8259 as trees and prove that the reader makes
of each what it stands for, `JsonAccepts` that it takes nothing else, and
`JsonRoundTrip` that the writer's text is one of them. `JsonWriter` and
`JsonReader` are the loops and cursors.

Findings on the way, each proved as stated in the table:

- Upgrades that pass protocol 11 too quickly can bring deleted entries back. Every
  well-formed run is safe from this if and only if no harmful merge is committed.
  A harmful merge can also end in a malformed-lifecycle throw, as `ThrowingRun`
  shows on a run of 96 ledgers.
- Catching up from a list whose run crosses protocol 11 can update absent keys;
  `CatchUp` says exactly when it does not.
- `recordMerge` keeps the coarse map and the reverse map inverse if and only if
  the key is new or was recorded with the same output; the counts stay right
  either way.
- `part_div` gives its argument back if and only if the leading digit fits 64
  bits, which every base from 2^32 up guarantees and base ten does not.
- The early return of `slow_div_` on leading zeros is unreachable.
- `decodeNumber` stays on the integer path if and only if the number is within
  its limit, leading zeros included.

Two oddities of the JSON reader are kept as they are: the token after an object
member is checked before comments are skipped and not again after, and a lone
minus sign is read as zero.

`dafny verify dfyconfig.toml` checks the project.

## Model

| member | source | states |
|---|---|---|
| `LedgerCmp.KeyTrichotomy` | src/bucket/LedgerCmp.h:13-97 | any two ledger keys are equal or ordered one way, never both |
| `LedgerCmp.KeyLessTransitive` | src/bucket/LedgerCmp.h:13-97 | the key order is transitive across all key types |
| `LedgerCmp.KeyOrderIs` | src/bucket/LedgerCmp.h:13-97 | what decides: the type tag, with accounts first and pools last, then the first identifying field, then the second |
| `LedgerCmp.EntryOrder` | src/bucket/LedgerCmp.h:104-157 | the bucket record order is a strict weak order whose classes are exactly "same identity", with META below everything |
| `Schedule.MaskClearsLowBits` | src/bucket/BucketList.cpp:244-248 | rounding down to a power of two clears the bits below it, as the source's mask does |
| `Schedule.SpillIff` | src/bucket/BucketList.cpp:393-404 | a level spills exactly at the multiples of its half size; the last level never |
| `Schedule.SpillCascades` | src/bucket/BucketList.cpp:393-404 | when a level spills, so does the next younger one, at the same ledger |
| `Schedule.EmptyCurrIff` | src/bucket/BucketList.cpp:77-101 | a merge is started against an empty curr exactly when it will commit at a spill of its own level |
| `Schedule.SpillTops` | src/bucket/BucketList.cpp:526-573 | one spill moves the closed-form ledger ranges of curr, snap and next as snap, commit and prepare move the buckets |
| `Schedule.IdleTops` | src/bucket/BucketList.cpp:526-573 | a ledger at which a level takes no part leaves its ranges alone |
| `Schedule.TopsDescend` | src/bucket/BucketList.h:162-196 | the ranges of curr and snap, level by level, are ordered and stay within the ledgers closed so far, skewed initial fill included |
| `Buckets.CombineKeepsReaderAndLifecycle` | src/bucket/Bucket.cpp:497-602 | merging two same-key entries changes nothing a reader sees and keeps "INIT only after DEAD or nothing" |
| `Buckets.CombineAssociative` | src/bucket/Bucket.cpp:497-602 | the old/new table is associative on lifecycle-correct entries, and no grouping hits a malformed pair |
| `Buckets.MergeVersionIsGreatest` | src/bucket/Bucket.cpp:362-386 | the version of a merge is the greatest of its inputs' versions and of its shadows' versions below 12 |
| `Buckets.MergeErrors` | src/bucket/Bucket.cpp:389-428 | exactly when a merge throws and for which of its four reasons |
| `Runs.FreshHeld` | src/bucket/Bucket.cpp:146-178 | a fresh bucket is the net effect of its one ledger |
| `Runs.CombineHeld` | src/bucket/Bucket.cpp:497-602 | merging what two adjacent ranges hold neither throws nor loses the account of the joined range, whatever mix of protocol versions and elisions made them |
| `Runs.ElideHeld` | src/bucket/Bucket.cpp:215-287 | leaving out a shadowed entry, or a tombstone at the oldest level, keeps the account of a range |
| `Refinement.MergeHeld` | src/bucket/Bucket.cpp:604-672 | a merge of two adjacent ranges, with shadows and tombstone dropping, succeeds and holds the joined range; only a merge that runs below version 11 with a shadow from 11 on and does not reach back to ledger 1 is excepted |
| `Refinement.BelowAreShadows` | src/bucket/BucketList.cpp:477-518 | at prepare time every key of a captured shadow has been touched after the range it shadows |
| `Runs.HeldLater` | src/bucket/BucketList.cpp:109-117 | what a bucket or pending merge holds of its range stays a right account of it while later ledgers close |
| `Versions.VersionsAre` | src/bucket/Bucket.cpp:362-428 | the META version of every bucket, and of every pending merge, depends on the protocol versions of the ledgers alone |
| `Refinement.HarmlessIsQuiet` | src/bucket/Bucket.cpp:362-428 | a merge below version 11 that is not harmful has only shadows below version 11, or reaches back to ledger 1 |
| `Versions.OneSideIsHarmless` | src/bucket/BucketList.cpp:153-175 | runs that stay below 12, and runs from 11 on, have no harmful merge |
| `Refinement.CommitStep` | src/bucket/BucketList.cpp:109-117 | committing a pending merge that is not harmful gives curr the range the schedule says |
| `Refinement.PrepareStep` | src/bucket/BucketList.cpp:153-175 | the merge started for a level covers exactly the range it will commit, unless it is harmful |
| `Refinement.AddBatchStep` | src/bucket/BucketList.cpp:467-587 | the whole invariant is inductive over addBatch, through upgrades, as long as no harmful merge is committed |
| `Refinement.RunInvariant` | src/bucket/BucketList.cpp:467-587 | until a harmful merge is committed every reachable list satisfies the invariant, and addBatch does not fail |
| `Theorems.LookupIsLedger` | src/bucket/BucketList.cpp:467-587 | whole-run refinement: for every well-formed run of never decreasing protocol versions, after every addBatch until a harmful merge is committed, reading curr(0), snap(0), curr(1), ... newest first gives exactly the map of all batches applied in order; so shadowing, annihilation, pending merges and tombstone dropping are invisible, through the cut-overs at 11 and at 12 |
| `Harm.DeletedComesBack` | src/bucket/Bucket.cpp:329-393 | for every never decreasing sequence of protocol versions, the addBatch that commits the first harmful merge makes a reader find a deleted entry, in a well-formed run with these versions |
| `Harm.RightIffHarmless` | src/bucket/Bucket.cpp:329-393 | the exact condition: all well-formed runs with given never decreasing versions read as the ledger after each ledger if and only if the versions let no harmful merge be committed |
| `Harm.FewLevelsAreHarmless` | src/bucket/Bucket.cpp:329-393 | with up to three levels there is no harmful merge, whatever the versions |
| `ThrowingRun.HarmCanThrow` | src/bucket/Bucket.cpp:506-602 | the other outcome: from five levels up, a run that creates and deletes a key before 11 and creates it again at 12 commits a harmful merge and ends in a malformed-lifecycle throw at ledger 96 |
| `Theorems.LifecycleInvariant` | src/bucket/Bucket.cpp:506-602 | in every reachable list of a run from protocol 11 on, through the upgrade to 12, each key reads oldest to newest as INIT after DEAD or nothing, LIVE and DEAD after INIT or LIVE, and every pending merge resolves |
| `Theorems.YoungestIsClear` | src/bucket/BucketList.cpp:566-573 | level 0 never has a merge pending between ledgers |
| `Theorems.OldestHasNoTombstones` | src/bucket/BucketList.cpp:407-410 | in every reachable list the oldest curr has no DEAD entry, the oldest snap is empty, and no pending merge will leave one |
| `Theorems.HeldUnique` | src/bucket/Bucket.cpp:486-602 | a bucket from protocol 12 on is determined by its ledger range |
| `Theorems.BucketsAreFolds` | src/bucket/BucketList.cpp:109-183 | every curr and snap of a run from protocol 12 on equals the plain fold of the batches of one contiguous ledger range |
| `Theorems.AnyGrouping` | src/bucket/Bucket.cpp:604-672 | merging the batches of a range in any bracketing gives that same fold |
| `Sizes.SizeOfCurr` | src/bucket/BucketList.cpp:250-295 | the recursive size computation terminates without underflow and equals the width of curr's scheduled range |
| `Sizes.SizeOfSnap` | src/bucket/BucketList.cpp:297-321 | the same for snap |
| `Sizes.OldestLedgerInCurr` | src/bucket/BucketList.cpp:323-341 | the first ledger of curr's range, or the maximum when empty, by walking sizes |
| `Sizes.OldestLedgerInSnap` | src/bucket/BucketList.cpp:343-360 | the first ledger of snap's range, or the maximum when empty |
| `Spans.SpansExpected` | src/bucket/BucketList.cpp:514-573 | the sets of ledgers the snap, commit and prepare schedule puts into each bucket are the closed-form ranges |
| `Spans.SizesAreScheduled` | src/bucket/BucketList.cpp:250-321 | the two closed-form sizes equal the number of ledgers actually held, for every ledger and level, initial skew and last level included |
| `Spans.SteadyState` | src/bucket/BucketList.h:162-196 | from LevelSize(i) on, every snap but the last holds exactly half a level |
| `Spans.RangesPartition` | src/bucket/BucketList.cpp:323-360 | conservation: the nonempty ranges partition ledgers 1 to the current one |
| `Restart.RunShape` | src/bucket/BucketList.cpp:514-573 | which levels have a merge pending, with which inputs, at any ledger |
| `Restart.SameForever` | src/bucket/BucketList.cpp:467-587 | lists that agree up to merge bookkeeping stay in agreement under every later batch |
| `Restart.RestartIsTransparent` | src/bucket/BucketList.cpp:589-659 | at any ledger of a run from protocol 12 on, dropping all pending merges and calling restartMerges recreates the same merges, and all later lists are the same |
| `Restart.RestartRefuses` | src/bucket/BucketList.cpp:589-659 | restartMerges fails exactly at the first level it cannot go on from, if a snap from before protocol 12 waits there |
| `ProtocolSafety.NeverAProtocolError` | src/bucket/Bucket.cpp:362-428 | with protocol versions that never decrease, no merge exceeds the maximum version, meets unsupported shadows or writes an illegal INIT or META |
| `ProtocolSafety.NeverNewerThanTheLedger` | src/bucket/Bucket.cpp:389-397 | whatever the versions do, in a run that has not failed the newest bucket is no newer than the ledger, and each pending merge is held to the protocol of the ledger that started it |
| `Files.EntriesValue` | src/bucket/LedgerCmp.h:104-157 | in a sorted file each record is the one and only entry of its key |
| `Iterators.GoodFileReads` | src/bucket/BucketInputIterator.cpp:15-53 | a well-formed file never trips the checks of loadEntry |
| `Iterators.BucketInputIterator.constructor` | src/bucket/BucketInputIterator.cpp:90-107 | a cursor that has read nothing |
| `Iterators.BucketInputIterator.LoadEntry` | src/bucket/BucketInputIterator.cpp:15-53 | fails exactly on a second or late META or a record its META forbids; otherwise lands on the next record past META |
| `Iterators.BucketInputIterator.Next` | src/bucket/BucketInputIterator.cpp:114-126 | one record further, or the fault of that record; a good file has none |
| `Iterators.Open` | src/bucket/BucketInputIterator.cpp:90-107 | an opened file knows its version and is on its first record, or reports the fault of that record; a good file has none |
| `Iterators.BucketOutputIterator.constructor` | src/bucket/BucketOutputIterator.cpp:38-66 | META goes in first from protocol 11 on |
| `Iterators.BucketOutputIterator.Put` | src/bucket/BucketOutputIterator.cpp:68-112 | the buffered writer absorbs a record at the end, replaces one of the same identity, drops unwanted tombstones, and its output stays strictly sorted |
| `Iterators.BucketOutputIterator.GetBucket` | src/bucket/BucketOutputIterator.cpp:114-141 | the finished file is exactly what was absorbed |
| `MergeRun.StopDecides` | src/bucket/Bucket.cpp:258-286 | where a forward-only shadow cursor stops decides membership of the candidate |
| `MergeRun.ScanShadow` | src/bucket/Bucket.cpp:258-286 | one lazily advanced shadow cursor answers as a membership test would |
| `MergeRun.ScanShadows` | src/bucket/Bucket.cpp:258-286 | all shadow cursors together, skipped ones included, answer as fresh membership tests would, and stay usable for larger candidates |
| `MergeRun.MaybePut` | src/bucket/Bucket.cpp:215-287 | a candidate is written unless shadowed out, with lifecycle entries kept from protocol 11 on |
| `MergeRun.CalculateMergeProtocolVersion` | src/bucket/Bucket.cpp:362-428 | the merge version from inputs and shadows, or the version error, or the shadows error |
| `MergeRun.MergeCasesWithDefaultAcceptance` | src/bucket/Bucket.cpp:434-472 | exhausted or unequal heads: the smaller one is consumed, checked and offered, keeping "everything before the cursors is merged" |
| `MergeRun.PutMerged` | src/bucket/Bucket.cpp:546-602 | the same-key table: INIT+LIVE, INIT+DEAD, DEAD+INIT and the default, or the malformed-lifecycle error |
| `MergeRun.MergeCasesWithEqualKeys` | src/bucket/Bucket.cpp:476-602 | both equal-key heads are consumed, and a malformed pair is reported exactly when there is one |
| `MergeRun.RunPass` | src/bucket/Bucket.cpp:641-664 | the one pass consumes both inputs, or stops with an error the inputs really contain |
| `MergeRun.MergeFiles` | src/bucket/Bucket.cpp:604-672 | the file merge refines the mathematical merge: same entries, same META, same error, output sorted and duplicate-free |
| `FreshBucket.SortEntries` | src/bucket/Bucket.cpp:136-137 | the records in ascending order, none added or lost |
| `FreshBucket.SortDistinct` | src/bucket/Bucket.cpp:136-142 | the adjacent-pair check after sorting finds a repeated key exactly when there is one |
| `FreshBucket.ConvertToBucketEntry` | src/bucket/Bucket.cpp:107-144 | init, live and dead vectors become one sorted vector, or a repeated key is reported |
| `FreshBucket.FreshFile` | src/bucket/Bucket.cpp:146-178 | the fresh file holds exactly the batch, or is refused exactly when a key repeats |
| `BucketListRun.GetBucketVersion` | src/bucket/Bucket.cpp:674-680 | the version a file's META states, zero without one |
| `BucketListRun.BucketLevel.constructor` | src/bucket/BucketList.cpp:24-29 | an empty level |
| `BucketListRun.BucketLevel.Snap` | src/bucket/BucketList.cpp:177-183 | curr moves to snap and becomes empty; next is kept |
| `BucketListRun.BucketLevel.Commit` | src/bucket/BucketList.cpp:109-117 | a pending merge is resolved into curr, or its error is reported |
| `BucketListRun.BucketLevel.Prepare` | src/bucket/BucketList.cpp:153-175 | the merge is started with the curr, snap, shadows and flags the schedule and protocol choose |
| `BucketListRun.BucketList.constructor` | src/bucket/BucketList.cpp:663-669 | all levels empty and distinct |
| `BucketListRun.BucketList.CollectShadows` | src/bucket/BucketList.cpp:477-482 | curr and snap of every level, youngest first |
| `BucketListRun.BucketList.Exchange` | src/bucket/BucketList.cpp:553-556 | snap, commit and prepare change exactly two levels, or the commit's error is reported |
| `BucketListRun.BucketList.Spill` | src/bucket/BucketList.cpp:526-557 | one turn of the loop makes one more level final, or fails as the whole addBatch then must |
| `BucketListRun.BucketList.SpillLevels` | src/bucket/BucketList.cpp:510-558 | the loop from the oldest level down leaves every level but the youngest final |
| `BucketListRun.BucketList.AddYoungest` | src/bucket/BucketList.cpp:566-573 | the fresh bucket is merged into level 0 at once |
| `BucketListRun.BucketList.AddBatch` | src/bucket/BucketList.cpp:467-587 | the in-place run equals the function on values, and fails exactly when and as that does |
| `BucketListRun.BucketList.PrepareAt` | src/bucket/BucketList.cpp:653-656 | a restarted merge changes one level's pending merge |
| `BucketListRun.BucketList.RestartMerges` | src/bucket/BucketList.cpp:589-659 | the in-place restart equals the function on values, with its early return and its error |
| `Ledgers.CloseLedger` | src/bucket/BucketList.cpp:467-587 | one ledger, in place: where the run on values succeeds, so does addBatch, with the same levels |
| `Ledgers.CloseLedgers` | src/bucket/BucketList.cpp:467-587 | end to end: feeding well-formed batches of never decreasing versions to the in-place bucket list never fails unless a harmful merge is committed, and its newest-first view is the ledger map |
| `Applicator.LedgerRoot.CreateWithoutLoading` | src/bucket/BucketApplicator.cpp:105-167 | logs a creation and writes the entry |
| `Applicator.LedgerRoot.UpdateWithoutLoading` | src/bucket/BucketApplicator.cpp:105-167 | logs an update and writes the entry |
| `Applicator.LedgerRoot.EraseWithoutLoading` | src/bucket/BucketApplicator.cpp:105-167 | logs an erasure and removes the entry |
| `Applicator.BucketApplicator.constructor` | src/bucket/BucketApplicator.cpp:19-40 | an applicator at the start of a bucket has applied nothing |
| `Applicator.BucketApplicator.ApplyOne` | src/bucket/BucketApplicator.cpp:105-167 | the create, update or erase chosen for one accepted entry |
| `Applicator.BucketApplicator.Advance` | src/bucket/BucketApplicator.cpp:76-183 | one chunk: everything before the cursor has been replayed once, and the chunk ends past the commit size or at the end |
| `Applicator.BucketApplicator.ApplyAll` | src/bucket/BucketApplicator.cpp:76-183 | repeated advances replay the bucket once, however they are chunked |
| `Applicator.ReplayAt` | src/bucket/BucketApplicator.cpp:76-183 | a replay sets every accepted key to what the bucket says and leaves the rest |
| `Applicator.ReplayIssuesValid` | src/bucket/BucketApplicator.cpp:76-183 | a bucket is replayed with valid operations only, if and only if each of its accepted entries finds its key present or absent as it demands |
| `Applicator.CatchUp` | src/bucket/BucketApplicator.cpp:76-183 | catch-up: all buckets of a reachable list, oldest first, give exactly the accepted part of the ledger map; only absent keys are created and only present ones updated or erased, if and only if each entry suits what the older buckets read, which is so from protocol 11 on and with the presence checks of older versions |
| `CatchUpRun.OpenApplicator` | src/bucket/BucketApplicator.cpp:19-40 | an applicator at the start of a bucket, refused exactly when the bucket is from a newer protocol |
| `CatchUpRun.ApplyBuckets` | src/catchup/ApplyBucketsWork.cpp:165-202 | on a node that holds nothing: oldest level first, snap before curr, skipping empty buckets until one is not, each with the least version seen so far; admissible buckets are never refused |
| `CatchUpRun.MinIsLeast` | src/catchup/ApplyBucketsWork.cpp:179-196 | the version handed on is the least of all buckets dealt with so far, empty ones in between included, and nothing else is |
| `CatchUpRun.ReachableIsAdmissible` | src/bucket/BucketApplicator.cpp:100-103 | no bucket of a reachable list trips the version or legality checks |
| `CatchUpRun.CatchUpList` | src/catchup/ApplyBucketsWork.cpp:165-202 | end to end: the chunked in-place catch-up of a reachable list never fails and leaves exactly the accepted part of the ledger; its operations are valid if and only if each entry met before any bucket from before protocol 11 is of a key the older buckets read as it demands, which is so on either side of protocol 11 |
| `CatchUpRun.UpgradeUpdatesAbsent` | src/bucket/BucketApplicator.cpp:133-160 | across protocol 11 they need not be: from three levels up, after a creation at ledger 1 under protocol 10 and five ledgers of protocol 11, catching up updates an absent key |
| `MergeMap.GetMergeKeyHashes` | src/bucket/BucketMergeMap.cpp:12-25 | exactly the curr, the snap and the shadows a merge takes in |
| `MergeMap.BucketMergeMap.AddPairs` | src/bucket/BucketMergeMap.cpp:37-42 | one more (input, output) pair for each input |
| `MergeMap.BucketMergeMap.RemovePairs` | src/bucket/BucketMergeMap.cpp:78-97 | one (input, output) pair fewer for each input |
| `MergeMap.BucketMergeMap.RecordMerge` | src/bucket/BucketMergeMap.cpp:31-43 | the counts are kept whatever is recorded, in any state; the other two maps stay inverse exactly when the key is new or had this output |
| `MergeMap.ConflictingRecords` | src/bucket/BucketMergeMap.cpp:31-43 | one key recorded with two outputs leaves the counts right and the other two maps at odds |
| `MergeMap.BucketMergeMap.ForgetAllMergesProducing` | src/bucket/BucketMergeMap.cpp:45-104 | exactly the recorded merges of the output go and are returned, all other counts are unchanged; maps that were inverse stay so, and then none mentions the output |
| `MergeMap.BucketMergeMap.Forget` | src/bucket/BucketMergeMap.cpp:50-101 | one recorded merge goes from all three maps |
| `MergeMap.BucketMergeMap.FindMergeFor` | src/bucket/BucketMergeMap.cpp:106-116 | what the coarse map says; with inverse maps, the recorded output of the key and nothing else |
| `MergeMap.BucketMergeMap.GetOutputsUsingInput` | src/bucket/BucketMergeMap.cpp:118-131 | exactly the outputs of recorded merges that take the input in, as curr, as snap or as a shadow |
| `GetoptLong.Gcd` | lib/util/getopt_long.c:107-120 | a common divisor that is an integer combination of the two, hence the greatest |
| `GetoptLong.PosForm` | lib/util/getopt_long.c:145-150 | the position after j steps of a cycle, as a remainder |
| `GetoptLong.CyclesDisjoint` | lib/util/getopt_long.c:142-156 | two cycles share no position |
| `GetoptLong.CyclesCover` | lib/util/getopt_long.c:142-156 | every position of the two blocks lies on some cycle |
| `GetoptLong.RunCycle` | lib/util/getopt_long.c:145-155 | the inner loop rotates the contents along one cycle and touches nothing else |
| `GetoptLong.PermuteArgs` | lib/util/getopt_long.c:127-157 | the two blocks are exchanged in place, order inside each kept, everything outside untouched |
| `UInt128.AddValue` | lib/util/uint128_t.h:294-301 | sum modulo 2^128, with the carry read off the wrapped low word |
| `UInt128.SubValue` | lib/util/uint128_t.h:303-308 | difference modulo 2^128, with the borrow read off the low words |
| `UInt128.LessValue` | lib/util/uint128_t.h:578-584 | the word comparison is the comparison of values |
| `UInt128.ShlValue` | lib/util/uint128_t.h:614-627 | left shift multiplies by a power of two modulo 2^128, for every count |
| `UInt128.ShrValue` | lib/util/uint128_t.h:585-595 | right shift divides by a power of two, for every count |
| `UInt128Product.ImulValue` | lib/util/uint128_t.h:597-612 | the half-word and cross products add up to the product modulo 2^128 |
| `UInt128Product.ClzBound` | lib/util/uint128_t.h:565-574 | the leading zero count places a value between two powers of two |
| `UInt128Product.ClzOrder` | lib/util/uint128_t.h:642-645 | the early return on more leading zeros is never taken |
| `UInt128Product.SlowDiv` | lib/util/uint128_t.h:629-656 | quotient and remainder of any dividend by any nonzero divisor |
| `UInt128Product.BitByBit` | lib/util/uint128_t.h:642-656 | the shift-and-subtract loop, one quotient bit a round |
| `UInt128Product.Div` | lib/util/uint128_t.h:658-666 | the quotient, or the divide-by-zero error exactly for a zero divisor |
| `UInt128Product.Mod` | lib/util/uint128_t.h:668-675 | the remainder, or the error exactly for a zero divisor |
| `UInt128Product.PartDiv` | lib/util/uint128_t.h:677-685 | three digits that give the value back if and only if the leading one fits a word |
| `UInt128Product.TenLosesTheLargest` | lib/util/uint128_t.h:677-685 | in base ten the largest value cannot be given back by any three digits |
| `UInt128Product.DigitsFit` | lib/util/uint128_t.h:885-886 | for any base from 2^32 up, 10^19 among them, it always fits |
| `Basen.AlphabetRoundTrip` | lib/util/basen.h:84-164 | each digit decodes to its index; padding is no digit, digits are no space |
| `Basen.EncodesInAlphabet` | lib/util/basen.h:84-141 | the digits are the characters of the RFC 4648 alphabet of the base, in its order |
| `Basen.DecodesFromAlphabet` | lib/util/basen.h:98-163 | a character is decoded if and only if it is in the alphabet, and to its place there |
| `Basen.ExtractPartialBits` | lib/util/basen.h:62-70 | the group of bits inside one byte |
| `Basen.ExtractOverlappingBits` | lib/util/basen.h:72-80 | the group of bits across two bytes |
| `Basen.Encode` | lib/util/basen.h:211-254 | the digits, taken from the RFC 4648 alphabet, spell the bytes' bits, zero-filled to the last digit, and the padded length is the one RFC 4648 gives (sections 4, 6 and 8) |
| `Basen.Pad` | lib/util/basen.h:249-253 | the closing loop pads to a whole block |
| `Basen.Decode` | lib/util/basen.h:166-209 | the whole bytes of the bits that the characters of the alphabet spell, all others skipped |
| `Basen.RoundTrip` | lib/util/basen.h:166-254 | decode(encode(b)) = b for every byte string and base |
| `Basen.DecodingUnique` | lib/util/basen.h:166-209 | a text has one decoding, decided by its digits alone |
| `CBitset.Bitset.Resize` | lib/util/cbitset.c:157-179 | the common words are kept; new words are zero only when asked |
| `CBitset.Bitset.MoveWords` | lib/util/cbitset.c:92-100 | the in-place move by whole words never reads a word it has overwritten |
| `CBitset.Bitset.MoveBits` | lib/util/cbitset.c:102-113 | the same with bits carried between words |
| `CBitset.Bitset.ShiftLeft` | lib/util/cbitset.c:86-118 | the set becomes {x + s : x in the set} |
| `CBitset.Bitset.PullWords` | lib/util/cbitset.c:129-132 | the in-place move down by whole words |
| `CBitset.Bitset.PullBits` | lib/util/cbitset.c:137-144 | the same with bits carried between words |
| `CBitset.Bitset.ShiftRight` | lib/util/cbitset.c:120-146 | the set becomes {x : x + s in the set} |
| `CBitset.ShiftsCancel` | lib/util/cbitset.c:86-146 | shifting right undoes shifting left |
| `CBitset.Ctz` | lib/util/cbitset.h:215-221 | the place of the lowest set bit |
| `CBitset.Bitset.Set` | lib/util/cbitset.h:107-119 | one number is added, growing with zero words |
| `CBitset.Bitset.NextSetBit` | lib/util/cbitset.h:207-234 | the least element from a position on, or none |
| `CBitset.Bitset.Elements` | lib/util/cbitset.h:201-206 | the documented loop lists the set in ascending order |
| `JsonWriter.UintToString` | lib/json/jsoncpp.cpp:145-151 | the digits, written backwards without leaving the buffer |
| `JsonWriter.ValueToString` | lib/json/jsoncpp.cpp:3003-3022 | the decimal text of a 64-bit integer |
| `JsonWriter.ContainsControlCharacter` | lib/json/jsoncpp.cpp:2995-3001 | whether a control character occurs |
| `JsonWriter.ValueToQuotedString` | lib/json/jsoncpp.cpp:3075-3135 | the quoted, escaped text, also on the shortcut without escapes |
| `JsonText.EscapesExactly` | lib/json/jsoncpp.cpp:3075-3135 | quotes, backslashes and control characters are escaped, and nothing else is |
| `JsonText.WrittenInOneLine` | lib/json/jsoncpp.cpp:3075-3135 | a written string has no control characters |
| `JsonText.CStringIs` | lib/json/jsoncpp.cpp:3075-3135 | a string is written up to its first NUL |
| `JsonWriter.FastWriter.constructor` | lib/json/jsoncpp.cpp:3143-3145 | an empty document |
| `JsonWriter.FastWriter.WriteValue` | lib/json/jsoncpp.cpp:3162-3208 | appends the text of the value |
| `JsonWriter.FastWriter.WriteArray` | lib/json/jsoncpp.cpp:3183-3192 | appends the items between brackets |
| `JsonWriter.FastWriter.WriteObject` | lib/json/jsoncpp.cpp:3193-3206 | appends the members between braces |
| `JsonWriter.FastWriter.WriteDocument` | lib/json/jsoncpp.cpp:3154-3160 | the value's text and a line feed |
| `JsonParse.SpacesSkipped` | lib/json/jsoncpp.cpp:493-501 | everything skipped is a space, and the stop is not |
| `JsonParse.NumberScanned` | lib/json/jsoncpp.cpp:566-573 | a number token takes all the number characters there are |
| `JsonParse.StringScanned` | lib/json/jsoncpp.cpp:575-585 | the closing quote is the first one no backslash escapes |
| `JsonParse.TokenText` | lib/json/jsoncpp.cpp:422-491 | the text of each token, after nothing but spaces |
| `JsonParse.InsertAssigns` | lib/json/jsoncpp.cpp:619-622 | assigning a member gives its name the new value, leaves the other names theirs and keeps names in order |
| `JsonText.NameOrderIs` | lib/json/jsoncpp.cpp:619-622 | names are ordered by the first place where they differ |
| `JsonReader.Reader.constructor` | lib/json/jsoncpp.cpp:291-311 | a cursor at the start of the document |
| `JsonReader.Reader.SkipSpaces` | lib/json/jsoncpp.cpp:493-501 | the cursor moves to the first character that is no space |
| `JsonReader.Reader.ReadNumber` | lib/json/jsoncpp.cpp:566-573 | the cursor moves past all number characters |
| `JsonReader.Reader.ReadToken` | lib/json/jsoncpp.cpp:422-491 | the next token and where it ends |
| `JsonReader.Reader.SkipCommentTokens` | lib/json/jsoncpp.cpp:405-413 | the next token that is no comment |
| `JsonReader.Reader.Match` | lib/json/jsoncpp.cpp:503-512 | whether the pattern follows, consuming it if so |
| `JsonReader.Reader.ReadString` | lib/json/jsoncpp.cpp:575-585 | the end of a string literal, escapes respected |
| `JsonReader.Reader.ReadComment` | lib/json/jsoncpp.cpp:514-564 | the end of a comment of either style |
| `JsonReader.Reader.ReadValue` | lib/json/jsoncpp.cpp:332-403 | the value the text has at the cursor, or failure, and the cursor behind it |
| `JsonReader.Reader.ReadArray` | lib/json/jsoncpp.cpp:642-677 | the array behind an opening bracket |
| `JsonReader.Reader.ReadName` | lib/json/jsoncpp.cpp:601-618 | a member name and its colon |
| `JsonReader.Reader.ReadComma` | lib/json/jsoncpp.cpp:626-637 | the token behind a member |
| `JsonReader.Reader.ReadObject` | lib/json/jsoncpp.cpp:587-640 | the object behind an opening brace |
| `JsonReader.Reader.Parse` | lib/json/jsoncpp.cpp:291-330 | the root value |
| `JsonReader.DecodeNumberText` | lib/json/jsoncpp.cpp:689-735 | the number of a token, each step within 64 bits |
| `JsonReader.DecodeStringText` | lib/json/jsoncpp.cpp:793-844 | the string of a token; what that is, is stated by `PiecesDecoded` |
| `JsonStrings.Utf8Reads` | lib/json/jsoncpp.cpp:99-125 | every code point is given its UTF-8 sequence, the shortest one: a separate UTF-8 reader gives the code point back |
| `JsonStrings.PiecesDecoded` | lib/json/jsoncpp.cpp:793-901 | every way RFC 8259 lets a string be spelled decodes to it: plain characters, the eight short escapes, and any code point as one or two escapes with digits of either case |
| `JsonStrings.PiecesScanned` | lib/json/jsoncpp.cpp:575-585 | the closing quote found is the one behind the pieces |
| `JsonStrings.LiteralReads` | lib/json/jsoncpp.cpp:575-585 | however a string is spelled, it is one token that decodes to it |
| `JsonRoundTrip.IntegerPathExact` | lib/json/jsoncpp.cpp:689-735 | the integer path is taken if and only if the number is within the limit, and then gives exactly that number |
| `JsonRoundTrip.DecimalDecodes` | lib/json/jsoncpp.cpp:689-735 | every written integer decodes to itself |
| `JsonRoundTrip.StringScanned` | lib/json/jsoncpp.cpp:575-585 | the closing quote found is the one written |
| `JsonRoundTrip.StringDecoded` | lib/json/jsoncpp.cpp:793-844 | escaping and decoding is the identity |
| `JsonRoundTrip.QuotedReads` | lib/json/jsoncpp.cpp:3075-3135 | a quoted string is one token that decodes to the string |
| `JsonGrammar.FillersSkipped` | lib/json/jsoncpp.cpp:493-564 | spaces and comments of either style before a token are passed over |
| `JsonGrammar.ItemsParse` | lib/json/jsoncpp.cpp:642-677 | items, with spaces and comments around them, are read in order |
| `JsonGrammar.EntriesParse` | lib/json/jsoncpp.cpp:587-640 | members, with spaces and comments around them, are read one after the other |
| `JsonGrammar.LastMemberWins` | lib/json/jsoncpp.cpp:619-622 | an object has each name once, in order, with the value of the last member of that name |
| `JsonGrammar.TextParses` | lib/json/jsoncpp.cpp:332-403 | every text of RFC 8259, sections 2 to 7, is read to its end and as what it stands for |
| `JsonGrammar.DocumentParses` | lib/json/jsoncpp.cpp:291-330 | so is a whole document, with spaces and comments before the value and spaces behind it |
| `JsonAccepts.ReadsExactlyTexts` | lib/json/jsoncpp.cpp:332-403 | in a document without comments a value is read if and only if a text of the grammar stands there, leniencies included: any number characters, an extra comma behind an empty name, and a loose second surrogate |
| `JsonRoundTrip.WrittenIs` | lib/json/jsoncpp.cpp:3162-3208 | the writer's text of a value is one of the grammar's and stands for the value |
| `JsonRoundTrip.ValueParses` | lib/json/jsoncpp.cpp:332-403 | a written value, anywhere in a text, is read back and the cursor ends where its text ends |
| `JsonRoundTrip.RoundTrip` | lib/json/jsoncpp.cpp:332-403 | JSON round trip (RFC 8259, sections 4 to 7): the reader gets the same tree from the writer's line, up to int/uint tagging |
| `JsonReader.WriteThenRead` | lib/json/jsoncpp.cpp:291-330 | the same, through the writer and the reader as they run |

## Left out

- FutureBucket: a pending merge is a delayed value; its threads, hashes, saved states and `resolveAnyReadyFutures` are not modelled.
- Hashing, XDR streams, temporary files, fsync, the shutdown check inside merge, counters and logging.
- Ledger numbers, versions and sizes are unbounded naturals; the source's 32-bit width is reached only at level 15, and there are 11 levels. The number of levels is a parameter from 2 up.
- Key types that exist only with the next protocol enabled; entry bodies are opaque.
- Theorems.BucketsAreFolds, Theorems.AnyGrouping, Restart.RestartIsTransparent: from protocol 12 on only; before, elision makes buckets depend on when merges ran, and restartMerges refuses.
- CatchUpRun.CatchUpList: the node starts from nothing.
- MergeRun.MergeFiles: its inputs are well-formed files, as every file the model writes is; what a malformed file raises is stated by `LoadEntry` alone.
- Applicator.BucketApplicator.constructor: takes a bucket within the maximum version; `CatchUpRun.OpenApplicator` states the refusal.
- Applicator.LedgerRoot.CreateWithoutLoading: logs and writes; what the database itself rejects is an operation that is not `OpValid`, and `CatchUp` says exactly when none is issued.
- Applicator.LedgerRoot.UpdateWithoutLoading: as above.
- Applicator.LedgerRoot.EraseWithoutLoading: as above.
- `std::sort` is an insertion sort with the same order; the multimaps of BucketMergeMap are a multiset and a sequence.
- ApplyBucketsWork: only the order of buckets, the skipping on a node that holds nothing and the version it passes on; invariant checks and progress are not modelled, and the database is a map with an operation log.
- GetoptLong: option parsing itself; permute_args is modelled for a nonempty second block, since its gcd divides by that block's length.
- UInt128: the native 128-bit specialisation and stream formatting.
- UInt128Product.SlowDiv: a zero divisor is excluded, as the source's comment demands; Div and Mod report it.
- CBitset: failed allocations, counts, set algebra on two bit sets, and nextSetBits; shifts that would index an empty array or shift right past the end are excluded, since the source reads outside the array there.
- JsonReader.Reader: recovery after an error, error messages, comment collection, offsets, dropped null placeholders and numeric keys; text that is read as a double stays text.
- JsonAccepts.ReadsExactlyTexts: documents with comments are left out, since behind a member and a comment the reader takes any token for a comma; that comments are skipped is in `JsonGrammar`.
- JsonWriter.ValueToString: the smallest 64-bit integer is excluded, since the source negates it; doubles, the styled writers and the YAML options are not modelled.
- JsonWriter.FastWriter.WriteValue: excludes trees with the smallest 64-bit integer, as above.
- JsonWriter.FastWriter.WriteArray: excludes trees with the smallest 64-bit integer, as above.
- JsonWriter.FastWriter.WriteObject: excludes trees with the smallest 64-bit integer, as above.
- JsonWriter.FastWriter.WriteDocument: excludes trees with the smallest 64-bit integer, as above.
- Network, database, overlay, consensus, transactions and the other vendored libraries.
