# Verified model of the ngram extension

The ngram extension answers substring search from an index of grams: each gram's key is posted with the rowids of the
rows that hold it, one row per key, rowid segment and generation. It claims that every query returns exactly what a scan
of the table would, whatever the index holds, whatever maintenance runs beside it and however many threads answer. This
project models the parts that carry that claim and proves it of the model.

- **Postings and packing** (`Leb128`, `Postings`, `OffsetStream`, `PackSegment`, `RunMerge`, `PackTree`, `Unpack`). The
  varint codec with its exact acceptance condition; the aggregate that packs a group's rowids in place, first inline,
  then in a linked list of growing blocks that one state adopts from another; the natural merge sort; and the law that
  any tree of updates and combines finalizes to the blob of the set fed.
- **The candidate queue and its memory** (`SegmentQueue`, `QueueRuns`, `FetchWorkers`, `ProbeMemory`). The queue's
  critical sections in place, every interleaving of any number of workers over them, and the counting argument behind
  the memory reservation.
- **The search** (`SortedLists`, `Probe`, `AdmitSegments`, `ProbeDecode`, `ProbeRun`, `Manifest`, `BoundedScan`,
  `SearchCore`, `Search`). Planning from the manifest of a packed index, decoding in bounded buffers, bounded scans over
  row groups with holes, and the end-to-end statement, from any run of maintenance to the answer.
- **The rowid guard** (`RowIdGuard.dfy` with module `Guards`, `GuardRuns`, `CleanRuns`, `GuardedRuns`, `GuardedSearch`).
  The guard's methods; runs of appends, failed commits, checkpoints in their phases, crashes and checkpoints taken
  without the extension; those runs with the index and its maintenance; and the whole claim, from a filter to the rows.
- **Refresh, compaction, partitioning** (`SegmentTable`, `StoredRows`, `Ranges`, `Refresh`, `RefreshRuns`,
  `MaintenanceEffects`). The segments table as a relation, what its rows store and how they are read back, the
  high-water mark under snapshot isolation, bounded catch-up, compaction and purging.
- **Grams and needles** (`SparseGrams`, `Needles`, `GramKeys`, `LikeNeedles`, `ProbeKeys`). Sparse grams over window
  weights, the covering stack, keys, and the literals a filter implies.
- **DuckLake** (`LakeRuns`, `LakeMaintenance`, `LakeQuery`, `LakeProbe`). Snapshot histories with any writer, schema
  changes, expiry and maintenance; the staleness check, the change feed and the intersection.

`Common` holds shared shapes. A C++ class whose methods change fields is a Dafny class whose methods are proved against
functions of its field values; concurrent and durable behaviour is a transition system over those functions, and the
theorems speak of every run. Host behaviour the source's comments rely on appears as what a step may do: commit order is
rowid order, a file checkpoint raises the iteration once after serializing its indexes, an appending transaction keeps
vacuuming out, a fetch returns the visible rows asked for, DuckLake raises the schema version with every schema change.
Where the host does less than a step allows, the theorem covers more: in `GuardRuns` a truncation may drop any trailing
rows, deleted or not.

Weights, keys, case folding and the text of a row are parameters; a theorem holds for every choice of them.

In one place the code and its comments differ. A comment says compaction leaves every row at generation 0
(`src/maintenance_sql.cpp:277-282`); the code returns early when the table holds a single generation, whatever its
number (lines 326-329). `SegmentTable.Compaction` states when it holds: every row is left at generation 0 if and only if
the early return was not taken or every row was at 0 already; a call that returns early leaves the rows, of one
generation, as they were. `Refresh.FirstRefreshStaysAtOne` is the failing case, the first refresh of an empty index, and
`Refresh.GenerationOneWitness` one row of it.

## Model

| member | source | states |
|---|---|---|
| Leb128.VarintLength | src/postings.cpp:13-19 | a value below 128^n takes at most n bytes |
| Leb128.AppendVarint | src/postings.cpp:13-19 | the loop appends exactly the value's unsigned LEB128 group |
| Leb128.ReadVarint | src/postings.cpp:21-44 | the byte loop reads exactly the group that starts at the position, and rejects a group that runs past the end or exceeds int64 |
| Leb128.ReadBack | src/postings.cpp:13-44 | a varint written between any bytes is read back as its value, at its length |
| Postings.EncodePostings | src/postings.cpp:46-67 | sorts, drops repeats, refuses a negative rowid, and writes version, count and deltas |
| Postings.Decode | src/postings.cpp:69-92 | whatever the bytes, an accepted blob yields strictly ascending rowids within int64 |
| Postings.DecodePostings | src/postings.cpp:69-92 | the decoding loop appends what the blob decodes to, or fails exactly when it does not decode |
| Postings.PostingsCount | src/postings.cpp:94-100 | the header's count is the decoded length of every blob that decodes |
| Postings.DecodeEncode | src/include/ngram/postings.hpp:12-17 | decoding an encoded list gives its sorted distinct rowids, for every list of non-negative rowids |
| Postings.DecodeIff | src/postings.cpp:69-92 | exactly which byte strings decode to a list: version, then the count and the deltas, each spelled by one group, and nothing after |
| OffsetStream.OffsetCodeSize | src/postings.cpp:444-446 | the size computed before writing is the length of the code written |
| OffsetStream.RestartsOnDescent | src/postings.cpp:434-442 | a code starts with the restart byte exactly when its offset descends, and otherwise spells the difference alone |
| OffsetStream.WriteVarint | src/postings.cpp:348-354 | writes a value's group in place and touches no byte before or after it |
| OffsetStream.WriteOffsetCode | src/postings.cpp:434-442 | writes a delta, or a restart byte and the offset, in place |
| OffsetStream.HoldsSnoc | src/postings.cpp:434-442 | appending a code to a stretch makes it hold one offset more |
| OffsetStream.DecodeStretch | src/postings.cpp:448-468 | the stretch's bytes decode to exactly the offsets appended, in order |
| PackSegment.RowidBlock.Put | src/postings.cpp:498-510 | a code put into a block that has room extends its stretch by one offset |
| PackSegment.PutInTail | src/postings.cpp:498-510 | writing into the last block changes the list's offsets by that offset alone |
| PackSegment.LinkLists | src/postings.cpp:571-574 | linking two lists that share nothing concatenates their offsets and keeps the list acyclic |
| PackSegment.GrowList | src/postings.cpp:498-505 | a full tail gets a fresh block twice its size, at most the limit, with room for any code |
| PackSegment.EncodePostingsState.AppendOffset | src/postings.cpp:482-510 | inline, spilled or listed, one more offset is held and nothing else changes |
| PackSegment.EncodePostingsState.SpillInline | src/postings.cpp:491-496 | the inline stream moves whole into the first block |
| PackSegment.EncodePostingsState.GrowTail | src/postings.cpp:498-505 | the new tail restarts its deltas and has room for any code |
| PackSegment.EncodePostingsState.AppendRowid | src/postings.cpp:512-523 | a row joins exactly when it is not negative and shares the group's segment, and then as its offset |
| PackSegment.EncodePostingsState.ForEachOffset | src/postings.cpp:470-480 | the offsets read back are those fed, in stream order |
| PackSegment.EncodePostingsState.AdoptIntoList | src/postings.cpp:571-574 | adopting another list's blocks concatenates the two streams without copying |
| PackSegment.EncodePostingsState.AdoptForInline | src/postings.cpp:575-582 | an inline state takes over the list and re-appends its own offsets |
| PackSegment.EncodePostingsState.Combine | src/postings.cpp:545-588 | copying or stealing, the target then holds both streams; it refuses exactly when both are non-empty and of different segments; a copied source is unchanged |
| RunMerge.FindRuns | src/postings.cpp:593-601 | the bounds cut the list into ascending runs, each ending at a descent, so none can be longer |
| RunMerge.MergePass | src/postings.cpp:602-615 | one pass merges neighbouring runs, leaving half as many, rounded up, and keeping the elements |
| RunMerge.SortOffsets | src/postings.cpp:590-617 | the natural merge sort yields the sorted distinct offsets |
| PackTree.EncodeSortedOffsets | src/postings.cpp:619-633 | the blob written into 21 + 3n bytes is the codec's blob of the rowids |
| PackTree.Finalize | src/postings.cpp:635-674 | an empty group is NULL; any other is its set's blob, count, minimum and maximum |
| PackTree.UpdateCarries | src/postings.cpp:512-523 | a row may join exactly when the longer list can share a group |
| PackTree.CombineCarries | src/postings.cpp:551-561 | two states may combine exactly when their rows can share a group, in either order |
| PackTree.Run | src/postings.cpp:512-588 | a tree of updates and combines fails exactly when its rows cannot share a group, and else carries them |
| PackTree.Pack | src/postings.cpp:320-333 | whatever the order, repeats, split and kind of combine, the result is byte for byte the blob of the rows fed |
| Unpack.UnpackPostingsLocalState.UnpackPostings | src/postings.cpp:232-318 | one call outputs at most a vector, stops short of the rows only when it has filled one, resumes where the last stopped, and fails on the first row that holds a NULL or whose blob or descriptor disagrees |
| Unpack.UnpackChunk | src/postings.cpp:186-202 | a chunk succeeds exactly when every row is acceptable, wherever calls stop; the output is then cut into the rows' own parts, each its blob's rowids, as many as its count, from its minimum to its maximum, within its segment and the mark; a failing row is the first that is not |
| StoredRows.StoredDecodes | src/postings.cpp:619-674 | whatever order and repeats a row's group was fed in, its blob decodes to exactly its rowids, and its count and span are theirs |
| StoredRows.TriplesArePostings | src/postings.cpp:232-318 | read as pairs, the triples unpacked from a chunk's rows are what those rows post, and every check on them passes |
| StoredRows.CorruptRowFails | src/postings.cpp:293-297 | a stored blob under a descriptor whose count, minimum or maximum differs is not acceptable |
| StoredRows.MisplacedRowFails | src/postings.cpp:278-297 | nor is one under another segment, or a mark below its maximum |
| StoredRows.Repack | src/maintenance_sql.cpp:366-377 | however the fragmented rows are cut into chunks and wherever unpacking stops, packing the output is the merge and keeps every posting |
| SegmentQueue.RunOn | src/search_core.cpp:334-344 | a batch stops at the first place at or after its cut where the next candidate lies in another vector |
| SegmentQueue.NextBatch | src/search_core.cpp:326-345 | a batch starts at the segment's cursor, is a range batch exactly when the next range's worth is many and dense, and ends at the first vector boundary at or after its size |
| SegmentQueue.BatchIsBounded | src/search_core.cpp:326-345 | a batch overshoots its size by less than a vector, and is a range batch exactly when its next candidates are enough and span at most four rows each |
| SegmentQueue.ClaimIsExact | src/search_core.cpp:312-367 | a claim decodes exactly when nothing is ready, none failed, a segment is unclaimed and a place is free; when it hands out, waits and ends likewise |
| SegmentQueue.CandidateQueue.PublishInOrder | src/search_core.cpp:289-301 | moves every pending segment that is next in ordinal order to ready, skipping empty ones |
| SegmentQueue.CandidateQueue.TakeBatch | src/search_core.cpp:321-350 | cuts the front's next batch and drops a front with nothing left |
| SegmentQueue.CandidateQueue.ClaimCandidateBatch | src/search_core.cpp:303-367 | one locked claim: batch, exhausted, wait, or the next segment to decode |
| SegmentQueue.CandidateQueue.FinishDecode | src/search_core.cpp:384-387 | a decoded segment becomes pending and what is due publishes |
| SegmentQueue.CandidateQueue.FailDecode | src/search_core.cpp:377-382 | a failed decode leaves the queue marked failed |
| QueueRuns.PublishConserves | src/search_core.cpp:289-301 | publishing loses and repeats no candidate |
| QueueRuns.TakeConserves | src/search_core.cpp:321-350 | taking a batch moves exactly its candidates from ready to handed out |
| QueueRuns.TakeOrdered | src/search_core.cpp:334-347 | a new batch follows every earlier one in index and shares no vector with it |
| FetchWorkers.PublishMoves | src/search_core.cpp:289-301 | publishing moves exactly the pending segments below the new cursor |
| FetchWorkers.PendingNeedsDecoder | src/include/ngram/search_core.hpp:104-107 | a pending segment waits for one that some worker is decoding |
| FetchWorkers.DecodeAlive | src/search_core.cpp:303-308 | the only step that allocates keeps the live vectors within 2M - 2 |
| FetchWorkers.NextInv | src/search_core.cpp:312-389 | every step of every worker keeps the whole invariant |
| FetchWorkers.HandedOutOnce | src/include/ngram/search_core.hpp:102-108 | in every run each published candidate is in exactly one batch or still ready, in rowid order |
| FetchWorkers.BatchIndexes | src/search_core.cpp:22-24 | batch indexes are unique, increase with rowid order and stay below the tail's; no two batches share a vector |
| FetchWorkers.AliveVectors | src/search_core.cpp:303-308 | at most M segments decoding, pending or ready, and at most 2M - 2 candidate vectors alive |
| FetchWorkers.WaitsForADecoder | src/search_core.cpp:351-364 | a worker is told to wait only while another decodes, and that one can finish |
| FetchWorkers.ExhaustedIsComplete | src/search_core.cpp:351-357 | without a decode failure, exhausted means every candidate was handed out |
| FetchWorkers.RunsEnd | src/search_core.cpp:312-389 | apart from waiting, a run takes at most two steps per candidate and segment and one per worker |
| FetchWorkers.NeverStuck | src/search_core.cpp:339-388 | in every reachable state with an unfinished worker some step makes progress: there is no deadlock |
| FetchWorkers.AllMayDecode | src/search_core.cpp:303-365 | M workers claiming one after another all decode at once, or as many as there are segments |
| ProbeMemory.SizeWorkers | src/probe.cpp:560-581 | the bytes reserved are a peak for each chosen worker and a candidate vector for each but two, and never exceed what is available |
| ProbeMemory.SizingIsMaximal | src/probe.cpp:565-569 | unless another cap stops it, one more worker would not fit |
| ProbeMemory.ReservationHolds | src/probe.cpp:551-582 | in every run live bytes, a fetch chunk for every worker among them, stay within the reservation and the budget |
| SortedLists.StableOrder | src/probe.cpp:444-451 | stable sorting by count yields every index once, equal counts by index |
| SortedLists.SelectRarestGrams | src/probe.cpp:312-348 | no gram left out has fewer postings than one taken |
| SortedLists.SetIntersection | src/probe.cpp:731-732 | the shared elements of two ascending lists, ascending |
| Probe.Summarise | src/probe.cpp:397-413 | the grouping loop yields each present gram's count and span |
| Probe.CapacityIsRows | src/probe.cpp:415-418 | a segment's capacity counts exactly its rowids up to the mark |
| Probe.CandidatesInSpan | src/probe.cpp:425-436 | a segment with a candidate has every gram and spans that share it |
| Probe.CandidatesBounded | src/probe.cpp:437-442 | a segment's candidates are at most its smallest count and its shared span |
| AdmitSegments.SegmentWorkerBytes | src/probe.cpp:350-372 | the bytes are the most rows alive at any step of the intersection in plan order, and the fetch scratch |
| AdmitSegments.PeakIsAStep | src/probe.cpp:353-366 | no step of the intersection in plan order has more rows alive than the peak charged, and some step has as many |
| AdmitSegments.PeakCovers | src/probe.cpp:444-451 | the charge computed in plan order is enough for decoding smallest list first |
| AdmitSegments.FindEnd | src/probe.cpp:392-396 | the manifest rows of one segment |
| AdmitSegments.LeftOutIsEmpty | src/probe.cpp:425-436 | a segment left out holds no candidate |
| AdmitSegments.AdmitsMeets | src/probe.cpp:425-436 | an admitted segment has every gram, and a rowid that lies within all their spans |
| AdmitSegments.MeetsAdmits | src/probe.cpp:425-436 | a segment with every gram and such a rowid is admitted |
| AdmitSegments.AdmitSegments | src/probe.cpp:374-474 | exactly the segments where every gram is present and the spans meet are admitted, and so every one with a candidate, grams smallest first; sums, admission price and peaks are exact; declined exactly past the budget, malformed exactly when a count exceeds its segment |
| AdmitSegments.CandidatesWithinBound | src/probe.cpp:464-466 | all candidates together are at most the plan's bound |
| ProbeDecode.DecodeDescriptor | src/probe.cpp:672-698 | a blob is accepted exactly when it agrees with its manifest entry |
| ProbeDecode.DecodeDescriptorRange | src/probe.cpp:617-718 | generations united, sorted; refused exactly when a blob disagrees, a rowid repeats or lies outside its segment or past the mark |
| ProbeDecode.ProbeDecodeScratch.IntersectNext | src/probe.cpp:726-737 | one intersection step within the candidates, the next list and their intersection |
| ProbeDecode.ProbeDecodeScratch.DecodeCandidateSegment | src/probe.cpp:720-742 | the candidates are the rows every gram posts, within the segment and the mark; it fails exactly when a gram it comes to does not decode; the buffers never exceed the planned peak, the result keeps room for no more than the smallest list, and unless no candidate is left exactly the counted rowids are decoded |
| ProbeDecode.ProbeDecodeScratch.Publish | src/probe.cpp:744-754 | a published vector leaves the worker with its allocation |
| ProbeRun.DecodeSegments | src/probe.cpp:756-765 | whichever workers decode which segments: it fails exactly when an undecodable gram is come to, at most the estimated rowids are decoded, and every decode and every vector keeps within the charges |
| ProbeRun.FetchUnits | src/probe.cpp:566-567 | the fewest fetch batches the bounded candidates fill, and no fewer than the segments |
| ProbeRun.PlanWithinBudget | src/probe.cpp:551-582 | with the plan's own charges and fetch units, in every run the live bytes stay within the workspace and the budget |
| Manifest.EntryIsHonest | src/probe.cpp:229-258 | an entry of a packed row passes every check, and its blob holds the row's rowids |
| Manifest.CorruptEntryFails | src/probe.cpp:672-698 | a stored blob under an entry with another count, minimum or maximum is refused |
| Manifest.SharedRowidFails | src/probe.cpp:703-710 | so is a gram two of whose entries post one rowid |
| Manifest.StrayRowidFails | src/probe.cpp:711-717 | and one with a rowid of another segment or past the mark |
| Manifest.ManifestIsHonest | src/probe.cpp:229-258 | a well-formed table's manifest passes every check of collecting it |
| Manifest.PostingIsListed | src/probe.cpp:172-310 | whatever a row of a probed key posts, the manifest lists |
| Manifest.GramRepeatsNothing | src/probe.cpp:703-710 | the generations of one gram of a well-formed table share no rowid |
| Manifest.ManifestFits | src/probe.cpp:415-424 | no gram of a well-formed table claims more postings than its segment has rows |
| Manifest.AdmittedIsSound | src/probe.cpp:621-718 | every gram of every segment admitted from a well-formed table decodes |
| BoundedScan.Seek | src/search_core.cpp:391-427 | seeking stops at the first group that reaches the range and is not excluded, at its first row or the vector that holds the start, and skips no row of the range |
| BoundedScan.BoundedScan | src/search_core.cpp:391-427 | with its rowid filter the scan reads exactly the present rows of the range, holes or not |
| SearchCore.RangeIsFetch | src/search_core.cpp:429-457 | range-scanned or fetched row by row, a batch emits the same rows |
| SearchCore.BoundedScanIsScan | src/search_core.cpp:391-427 | a filtered bounded scan finds every hit of its range |
| SearchCore.TailIsScan | src/search_core.cpp:242-246 | the tail units tile the committed rows past the index, and none is empty |
| SearchCore.UnprobedIsExhaustive | src/search_core.cpp:190 | a query that falls back scans the whole table in tail units, whatever mark the index has: every matching row, once, in order |
| SearchCore.TailMeetsIndex | src/search_core.cpp:190 | index and tail meet without overlap, also after the table shrank below the mark |
| SearchCore.SearchIsExhaustive | src/search_core.cpp:531-651 | every interleaving that ends without failure emits each matching visible row once, in order, then the local ones |
| Search.CoveredIsListed | src/probe.cpp:172-310 | a covered row is posted, by the manifest, under every probed key |
| Search.ProbeIndex | src/probe.cpp:480-590 | planning and decoding a valid index never find it malformed; declined exactly when the admitted rows exceed the budget, the probe is otherwise complete, within its estimate and charges, with no more candidates than bounded |
| Search.PlanIsComplete | src/probe.cpp:480-590 | the admitted candidates include every match up to the mark, whatever keys are probed |
| Search.QueryIsExact | README.md:158-166 | from a covering index to the answer: exactly the matching rows, for any keys, plan, interleaving, batch choice and unit |
| Search.QueryAfterAnyRun | README.md:158-166 | after every run of appends, deletes, refreshes, compactions and purges, a query answers exactly from the index it left |
| GuardedSearch.ProbedKeysAreFromNeedles | src/rewrite.cpp:193-212 | the keys a needle's decomposition adds are keys of a harvested needle the index can serve |
| GuardedSearch.FilterImpliesKeys | src/rewrite.cpp:123-212 | a row that satisfies the filter has every key probed for it |
| GuardedSearch.QueryUnderSafeVerdict | README.md:150-185 | after every history, under a safe verdict, a query returns exactly the live rows whose text satisfies its filter |
| Guards.RowIdGuard.ObserveRange | src/rowid_guard.cpp:302-324 | folds a range in, latching exactly when it starts at or below the maximum and the advance's iteration is unknown or another |
| Guards.RowIdGuard.Append | src/rowid_guard.cpp:196-219 | observes a chunk's smallest to largest rowid, whatever their order |
| Guards.RowIdGuard.ApplyCheckpointSeal | src/rowid_guard.cpp:326-332 | a pending seal is compared once |
| Guards.RowIdGuard.SerializeToDisk | src/rowid_guard.cpp:264-275 | persists the maximum, the latch and the next iteration as the seal |
| Guards.RowIdGuard.SerializeToWAL | src/rowid_guard.cpp:277-291 | persists the live state sealed with the current iteration |
| Guards.RowIdGuard.GetVerdict | src/index_state.cpp:207-229 | safe exactly when the mark was observed, the seal matches and the guard never latched |
| Guards.RowIdGuard.ResetStorage | src/rowid_guard.cpp:256-258 | resetting the storage latches, whatever the database's state |
| GuardRuns.ReplayIs | src/rowid_guard.cpp:428-436 | binding and replaying the log latches exactly when the log starts at or below the persisted maximum |
| GuardRuns.ChunkLive | src/rowid_guard.cpp:302-324 | an observed chunk that does not latch reissues nothing |
| GuardRuns.CommitDurable | src/rowid_guard.cpp:284-288 | a commit keeps what recovery would rely on |
| GuardRuns.ForeignStep | src/rowid_guard.cpp:271-274 | a checkpoint without the extension leaves a seal the new iteration does not match |
| GuardRuns.NextInv | src/rowid_guard.cpp:116-135 | every step, in every checkpoint phase, keeps the invariant |
| GuardRuns.SafeVerdictIsSound | src/rowid_guard.cpp:302-324 | in every run, index builds and refreshes in flight included, under a safe verdict no rowid up to the mark belongs to another row than its postings describe |
| GuardRuns.FailedCommitsDoNotLatch | src/rowid_guard.cpp:302-324 | between checkpoints no run of appends, failed commits appended again, verdicts and maintenance latches a guard that rose in this iteration or has seen exactly the rows |
| GuardRuns.SteadyIff | src/rowid_guard.cpp:302-324 | and that condition is exact: the next append latches any other guard |
| GuardRuns.LatchIsPermanent | src/rowid_guard.cpp:264-275 | a latch a checkpoint wrote out survives every step, crashes and foreign checkpoints among them |
| GuardRuns.ResetIsRemembered | src/rowid_guard.cpp:256-275 | after a storage reset no step short of a reopen makes the verdict safe, and the next checkpoint persists the latch |
| CleanRuns.TightStep | src/rowid_guard.cpp:264-291 | a step that reissues nothing keeps the guard, and whatever recovery would bind, at exactly the table's rows |
| CleanRuns.CleanRunsStaySafe | src/rowid_guard.cpp:116-135 | no false alarm over whole histories: any number of appends, checkpoints, crashes and index builds leaves the verdict safe while no observed append fails, no truncation takes rows, no append is half observed at a checkpoint and the extension stays loaded |
| GuardedRuns.GoneStep | src/rowid_guard.cpp:116-135 | rows the table lost below the mark stay deleted ones, in every image recovery could restore |
| GuardedRuns.RefreshedOk | src/maintenance_sql.cpp:134-255 | a refresh under a safe verdict extends the indexed rows by the table's, and posts them |
| GuardedRuns.PurgedOk | src/maintenance_sql.cpp:347-389 | purging under a safe verdict drops no posting of a row that is not deleted |
| GuardedRuns.NextSound | src/fence.cpp:325-346 | every step, maintenance in flight included, keeps the index and what each transaction would commit sound |
| GuardedRuns.SafeIndexCovers | src/index_state.cpp:207-229 | in every run of writes, truncations, reissues, crashes and maintenance, under a safe verdict each live row up to the mark is posted under the keys of the text it has now |
| SegmentTable.PackedPosts | src/build_sql.cpp:115-124 | packing a pair stream posts exactly its pairs |
| SegmentTable.OneGeneration | src/maintenance_sql.cpp:277-300 | a table of one generation is not fragmented |
| SegmentTable.MergePreserves | src/maintenance_sql.cpp:330-396 | merging keeps every key's posting set |
| SegmentTable.MergeDefragments | src/maintenance_sql.cpp:378-396 | merging leaves one row per key and segment at generation 0 |
| SegmentTable.Compaction | src/maintenance_sql.cpp:302-396 | compaction keeps every posting and leaves one row per key and segment, of one generation; that is 0 exactly when the merge ran or every row was at 0; a skipped merge changes nothing, and neither does a second call |
| SegmentTable.PurgeKeepsLive | src/maintenance_sql.cpp:347-389 | purging keeps exactly the live postings, one row per key and segment at generation 0 |
| Ranges.SegmentAlignedRanges | src/build_sql.cpp:63-88 | contiguous ranges that cover the span, cut only between segments, fewer than twice the partitions asked for and no fewer than them unless the segments are fewer, each with an even share of segments at most |
| Ranges.PackedByRangeIsPacked | src/build_sql.cpp:126-142 | packing range by range equals packing the whole span |
| Refresh.BoundedRefreshEnd | src/maintenance_sql.cpp:111-132 | the end lies past the mark, within the bound and the rowid space |
| Refresh.BoundedEndIsFurthest | src/maintenance_sql.cpp:111-132 | no segment boundary lies past the end within the bound; an end that is no boundary is the bound itself, or the last rowid; a span past the rowid space ends there |
| Refresh.BoundedEndIsAligned | src/maintenance_sql.cpp:111-122 | the end is a segment boundary unless the bound is smaller than the rest of the mark's segment |
| Refresh.AlignedIncrementsPackWhole | src/maintenance_sql.cpp:115-122 | increments that end on a boundary pack the rows one longer call would |
| Refresh.RefreshedPosts | src/maintenance_sql.cpp:233-252 | a call adds exactly the keys of the rows it covers |
| Refresh.MarkBounds | src/maintenance_sql.cpp:134-167 | the new mark never recedes, passes no rowid the snapshot does not prove committed, and leaves no visible row uncovered below it |
| Refresh.MarkIsExact | src/maintenance_sql.cpp:134-167 | a visible row past the new mark means the bound stopped the call there; otherwise the mark is the highest row it covered |
| Refresh.NewRowsAreFresh | src/maintenance_sql.cpp:244-252 | a call keeps every row and adds its own in one generation, the next after the highest there was |
| Refresh.RefreshCovers | src/maintenance_sql.cpp:141-156 | after a call every row up to the new mark that is live then or later is posted |
| Refresh.RefreshValid | src/maintenance_sql.cpp:244-255 | a call keeps the table well formed: a fresh generation, no rowid past the mark, and none posted twice under a key |
| Refresh.CallProgress | src/maintenance_sql.cpp:205-212 | a bounded call's mark stays in its span and advances while rows remain |
| Refresh.CatchUpIsOneRefresh | src/maintenance_sql.cpp:206-212 | the loop ends with no tail, and from any committed mark posts what one unbounded call would |
| Refresh.CatchUpCalls | src/maintenance_sql.cpp:206-212 | the loop is a chain of bounded calls, each made while rows are left and moving the mark past the last one by at most its bound |
| Refresh.PartitionsPackTheTail | src/maintenance_sql.cpp:233-243 | packing the tail in partitions writes the rows the whole tail would |
| Refresh.FirstRefreshStaysAtOne | src/maintenance_sql.cpp:326-329 | after a first refresh of an empty index compaction leaves every row at generation 1, not 0 |
| Refresh.GenerationOneWitness | src/maintenance_sql.cpp:326-329 | one indexed row that compaction leaves at generation 1 |
| RefreshRuns.WrittenSound | src/maintenance_sql.cpp:205-255 | what a maintenance transaction writes from its snapshot is sound in every later state it may commit to |
| RefreshRuns.MarkedRowsArePosted | src/maintenance_sql.cpp:134-156 | in every run of writes and overlapping maintenance, live rows up to the mark are posted and no later append falls below it |
| MaintenanceEffects.CommitTakesEffect | src/maintenance_sql.cpp:134-396 | what a committing refresh, compaction or purge leaves, whatever was written while it ran: exactly the keys added, where the mark ends, what is merged, what is dropped |
| MaintenanceEffects.RefreshCatchesUp | src/maintenance_sql.cpp:134-156 | after an unbounded refresh commits, a live row past the mark was appended after the refresh began |
| MaintenanceEffects.GuardedEffect | src/build_sql.cpp:115-124 | on a guarded table a created index posts exactly the live rows' keys up to its end, and a refresh, compaction or purge has the same effects |
| SparseGrams.InGrams | scripts/sparse_grams_check.py:48-59 | the enumeration lists exactly the pairs whose inner windows are all lighter than both borders |
| SparseGrams.NonCrossing | scripts/sparse_grams_check.py:48-59 | a text's grams, as pairs of border windows, never cross |
| SparseGrams.ExtractGramRanges | src/include/ngram/gram.hpp:104-149 | one pass over a stack emits exactly the grams of the definition, in order, at most two per min_gram window |
| SparseGrams.ExtractWindow | src/include/ngram/gram.hpp:130-148 | one window's pops, pairings and push |
| Needles.InGramsOf | src/include/ngram/gram.hpp:113-149 | which ranges of a text are grams, for either tokenizer |
| Needles.HasGrams | src/include/ngram/gram.hpp:117-120 | a text has grams exactly when it has min_gram codepoints |
| Needles.KeysOfText | src/include/ngram/gram.hpp:206-223 | a text's keys are exactly the packed keys of its min_gram windows and the buckets of its longer sparse grams |
| Needles.SparseHoldsNgramKeys | src/include/ngram/gram.hpp:216-221 | every key an ngram index of the same gram size has for a text, a sparse index has too |
| Needles.GramOccurs | src/gram.cpp:55-101 | a needle's gram is a gram of every text that holds the needle, with the same key |
| Needles.NeedleKeyOccurs | src/include/ngram/gram.hpp:25-28 | every key of a needle is a key of every text that holds it |
| Needles.GramsArrive | src/gram.cpp:197-200 | grams arrive by end, shorter ones first |
| Needles.Cover | src/gram.cpp:202-208 | an arrival retires exactly the kept grams that start at or after it |
| Needles.CoveringGrams | src/gram.cpp:197-208 | the stack ends with exactly the grams no other gram contains, and holds a container of each |
| Needles.NeedleKeys.Add | src/gram.cpp:141-151 | a new key is added while the budget allows, a known one always accepted |
| Needles.WithKeysInOrder | src/include/ngram/gram.hpp:230-231 | adding keys one after another leaves each once, in first-occurrence order |
| Needles.DecomposeNeedle | src/gram.cpp:163-218 | when a needle is too short, over budget or probeable, and which keys it then adds |
| Needles.ProbedKeysOccur | src/include/ngram/gram.hpp:255-260 | every key a needle adds is a key of every text that holds the needle |
| Needles.CoveringLosesNothing | src/include/ngram/gram.hpp:255-260 | a text that contains every probed gram has the keys of all the needle's grams: the covering ones are enough |
| GramKeys.PackedCollision | src/include/ngram/gram.hpp:189-192 | two packed grams share a key exactly when one is the other plus trailing NUL bytes |
| GramKeys.PackedIsNoBucket | src/include/ngram/gram.hpp:192-204 | a packed key whose first byte is not 0xFF is no bucket's key |
| GramKeys.ShortGramsHaveCodes | src/gram.cpp:420-427 | a packed gram of at most four bytes has a code |
| GramKeys.BucketsHaveCodes | src/gram.cpp:420-427 | and so has exactly every bucket below 2^32 |
| GramKeys.SortCodeRoundTrip | src/gram.cpp:420-435 | a key that fits has a 64-bit code that gives it back |
| GramKeys.SortCodeOrder | src/gram.cpp:420-423 | codes order as their keys do |
| GramKeys.DistinctByCode | src/gram.cpp:524-536 | sorting a row's codes yields what sorting its keys would |
| LikeNeedles.CollectLikeSegments | src/rewrite.cpp:98-121 | the character loop emits the pattern's non-empty parts, or nothing when it holds an underscore |
| LikeNeedles.LikeIsParts | src/rewrite.cpp:98-101 | without underscores, matching a pattern is spelling its parts in order |
| LikeNeedles.SegmentsOccur | src/rewrite.cpp:98-121 | a text that matches contains every emitted segment |
| LikeNeedles.FoldedSegmentsOccur | src/rewrite.cpp:55-57 | an ILIKE match contains every segment once both are folded |
| LikeNeedles.CollectExprNeedles | src/rewrite.cpp:123-173 | the recursion harvests what every conjunct contributes and nothing under an OR |
| LikeNeedles.HarvestIff | src/rewrite.cpp:123-191 | a needle is harvested exactly when a conjunct reachable through ANDs contributes it: its literal, or a non-empty part of an underscore-free pattern, with its own case rule |
| LikeNeedles.NeedlesAreTheFilter | src/rewrite.cpp:123-137 | a filter of ANDs and contains alone holds exactly of the texts that contain every harvested needle |
| LikeNeedles.NeedlesImplied | src/rewrite.cpp:123-191 | every needle harvested is contained in every row that satisfies the filter |
| LikeNeedles.HarvestedKeysArePosted | src/rewrite.cpp:193-212 | a row that satisfies the filter has every key of every needle its index can serve |
| ProbeKeys.OwnKeys | src/rewrite.cpp:329-338 | what a needle contributes: the keys of its probed grams, or nothing when the index cannot serve it, it has no gram, or it exceeds the budget |
| ProbeKeys.UsableContributes | src/rewrite.cpp:329-338 | a needle the index can serve, with a gram and within the budget, contributes all its probed grams' keys |
| ProbeKeys.CollectProbeKeys | src/rewrite.cpp:324-345 | the distinct keys of all usable needles in first-occurrence order, cut at the budget |
| ProbeKeys.CollectedKeysServe | src/rewrite.cpp:319-350 | every key collected is one each satisfying row has, and there are some exactly when a needle is usable |
| LakeQuery.Bucket | src/lake_query.cpp:77-89 | each row of a chosen key lands in its segment's list for that key, and nowhere else |
| LakeQuery.IntersectSegment | src/lake_query.cpp:90-126 | the lists intersected smallest first, ending early on an empty set |
| LakeQuery.IntersectPostings | src/lake_query.cpp:74-129 | exactly the row ids every chosen key posts within one segment |
| LakeQuery.SegmentsPartition | src/lake_query.cpp:74-76 | intersecting segment by segment proposes exactly what every key posts |
| LakeQuery.LakeRowids | src/lake_query.cpp:351-370 | the moving cursor answers membership for any sequence of row ids |
| LakeQuery.LakeRowidsPrune | src/lake_query.cpp:372-388 | a row group is skipped exactly when no candidate lies in its bounds |
| LakeRuns.SameVersion | src/lake_catalog.cpp:281-288 | an unchanged schema version proves no table changed |
| LakeRuns.RowIsFed | src/include/ngram/lake.hpp:137-143 | a live row inserted after the covered snapshot is in the change feed with its text |
| LakeRuns.FeedIsComplete | src/lake_catalog.cpp:260-272 | feed or fallback, the tail source lists every such row |
| LakeRuns.CreateOk | src/lake_maintenance.cpp:287-295 | a new index covers the snapshot it read, and its recorded version excludes a change before its commit |
| LakeRuns.RefreshOk | src/lake_maintenance.cpp:304-356 | an index so refreshed, its covered snapshot moved and the feed posted, keeps its promises |
| LakeRuns.CompactOk | src/lake_maintenance.cpp:362-417 | compaction keeps the covered snapshot and may record the newer schema version |
| LakeMaintenance.CreateEffect | src/lake_maintenance.cpp:285-295 | creating commits an index that covers the snapshot read, records one version more and posts exactly its rows' keys |
| LakeMaintenance.RefreshEffect | src/lake_maintenance.cpp:304-356 | a refresh commits an index that covers its planned snapshot and records that one's version, with every earlier posting and every key of each row inserted since the old mark, and only fed keys added |
| LakeMaintenance.CompactEffect | src/lake_maintenance.cpp:362-417 | compaction commits the same covered snapshot and the planned version, keeps every posting, or when purging exactly the live ones |
| LakeRuns.CurrentMeansUnchanged | src/lake_catalog.cpp:274-306 | a passing check proves the table unchanged since the covered snapshot |
| LakeRuns.StaleIsJustified | src/lake_catalog.cpp:274-306 | each answer of the check means what it says: no change, a change to the table, or a snapshot no longer listed |
| LakeMaintenance.CheckIsExact | src/lake_catalog.cpp:274-306 | the check passes exactly when the recorded version is the snapshot's, or every snapshot since the covered one is listed and none changed the table |
| LakeMaintenance.VersionOutlivesExpiry | src/lake_catalog.cpp:281-288 | an index with the snapshot's version is current whatever has expired |
| LakeMaintenance.CurrentUntilSchemaChange | src/lake_maintenance.cpp:304-417 | from a commit that recorded the version in force, no write and no expiry makes the index stale until a schema change commits |
| LakeMaintenance.MaintenanceRecordsVersion | src/lake_maintenance.cpp:304-417 | a refresh or compaction planned under the version still in force is such a commit |
| LakeMaintenance.RefreshOutlivesExpiry | src/lake_maintenance.cpp:331-350 | once refreshed at a snapshot, expiring any snapshots up to it leaves the index current unless a later one altered the table |
| LakeMaintenance.ExpiredAreUnread | src/lake_catalog.cpp:260-306 | neither the check nor the tail reads what an expired snapshot recorded |
| LakeMaintenance.TailIsNew | src/lake_catalog.cpp:260-272 | the tail is the change feed exactly when its snapshots are listed, and otherwise the live rows inserted since |
| LakeRuns.NextInv | src/lake_maintenance.cpp:42-70 | every write, schema change, expiry and maintenance commit keeps the invariant |
| LakeRuns.CandidatesAreComplete | src/lake_query.cpp:224-259 | in every run, when the check passes, postings and change feed together propose every row with all the probed keys |
| LakeProbe.ProbeAtSnapshot | src/lake_query.cpp:228-261 | the merged list: what all chosen keys post and the tail rows that pass the needle filter, each once, ascending |
| LakeProbe.MergedIsComplete | src/lake_query.cpp:224-259 | in every run, while the check passes, the merged list holds every matching row id |
| LakeProbe.LakeSearch | src/lake_query.cpp:351-370 | filtering the scan by that list before the recheck returns exactly the matching rows |

## Left out

- DuckDB's storage scans, catalog, locks, log, hash aggregate and allocator: host code; what the model relies on is stated above.
- SQL text, quoting, pragma binding, EXPLAIN output, metrics and settings: the model states the effect of the statements.
- Registry parsing, format upgrades, orphan listing, maintenance handles, version and source checks: lifecycle code without a hard property.
- UTF-8 decoding, case tables and hash quality: texts are codepoints, and folding, weights and keys are parameters.
- Integer overflow exceptions of the planner: sums are unbounded here, so the model has no overflow error to raise.
- The candidate-fraction gate and projection weight: a choice between two exhaustive strategies.
- Interrupts and exceptions thrown while fetching: the query then fails; only a failed decode is a step of the queue.
- The row-group fraction gate of DuckLake probes: declining falls back to a scan.
- SearchCore.SearchIsExhaustive: does not model the counter that hands out tail units, column layouts, the second fetch of wide columns, or how a batch is cut into chunks.
- ProbeDecode.DecodeDescriptorRange: does not model fetching descriptor rows in vector-sized batches, or the comparison of the fetched key and segment, because the manifest row is the row fetched.
- Probe.Summarise: the manifest scan is not modelled; what it lists is described by Manifest.Lists, and its checks are proved of a well-formed table.
- RunMerge.SortOffsets: the scratch and run buffers are sequences that are reassigned, so reuse of their memory is not modelled.
- PackSegment.EncodePostingsState.AppendRowid: takes rowids up to int64, the column's type; the arena that owns the blocks is the heap.
- Guards.RowIdGuard.SerializeToDisk: does not model the flag of a guard another build wrote, which keeps the verdict unsafe and is persisted latched.
- GuardRuns.SafeVerdictIsSound: an index build or refresh reads the verdict with its snapshot, and the appends of a table follow one another, as its append lock makes them.
- RefreshRuns.MarkedRowsArePosted: rowids keep their text; GuardedRuns.SafeIndexCovers is the statement without that. The fence that serializes maintenance is the rule that a transaction commits only if the index is as its snapshot saw it.
- LakeRuns.CandidatesAreComplete: the segments of an index are the set of their postings; generations and blobs are as in SegmentTable.
- LikeNeedles.NeedlesImplied: one column's filter; LIKE with ESCAPE is another function, which is not harvested.
- BoundedScan.BoundedScan: a row group a zone map excludes is skipped whole; skipping within a row group is the host's.
