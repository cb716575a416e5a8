# Nixe: GPU memory and submission, JIT residency and invalidation, PCM playback

A Dafny model of three parts of the Nixe emulator, with proofs of what they promise.

**The Maxwell GPU memory and submission stack.** `MappingTable`, `TableEdits`, `SpaceState`,
`SpaceOperations`, `SparseRemap` and `AddressSpace` model the GPU address space: an interval
table of mappings beside a table of reservations. Its meaning is the function `Lookup` from an
address to its translation (backing byte, permissions, kind, cacheability, identity), and every
operation is proved to be the exact pointwise update of that function, to keep every entry it does
not touch with its generation, to succeed exactly when stated, and to change nothing when it fails.
`Resolution` and `SpaceHistory` cover retained resolutions: the four-field check, the absence of
ABA over every linear history, staleness that is exact (a retained mapping is current if and only
if no operation since touched it), and reads that are either refused as stale or return what a
fresh access would. `Gpfifo` and `GpfifoSources`
model descriptor decoding and retained command sources. `WriteBatch`, `RangeAccess` and
`MemoryCopy` model deferred CPU writes with a read-through overlay and the page-cached copy.
`Planner`, `Submission`, `Execution` and `PacketDelivery` model inline coalescing and the resumable
execution that cuts device work into segments. `Submission` defines the meaning of a run as
performing each step at once and in order, by the CPU or by the device; what rendering work does to
memory is any function. `Execution` lets the device execute accepted commands at any time and is
proved to hand over every command exactly once, to have each executed on the canonical memory that
everything before it leaves, and to end with the memory of the run. `PacketDelivery` joins planner
and execution: whole packets leave what their requests ask for, word by word.

**JIT residency and invalidation.** `InvalidationLog` is the bounded log of memory changes,
`Coherence`, `JitInvalidation` and `JitRuns` prove that synchronisation never leaves a stale
compiled block, also when an alias was remapped after its contents changed. `Control` models the
control word protocol as interleaved atomic operations of any number of threads, and the control
block as a sequence of those operations. `GuestRegisters` and `Residency` model
contexts that live in a save area or in a native core.

**The PCM queue.** `Audio` models the playback queue shared by a device callback and a service.

`Canonical`, `ByteOrder` and `Ordering` hold what the parts share. Canonical memory is a map from
(page, offset) to a byte; staged writes are a second map laid over it. `dafny verify
dfyconfig.toml` checks the whole project.

Where the code and its comments differ, the code is followed: a sealed delivery whose last step is
a memory copy emits its final segment before that copy is committed, because copies are not
counted as emitting operations; program order still holds, since the copy comes after the
commands of that segment.

## Model

| member | source | states |
|---|---|---|
| `MappingTable.CutLookup` | crates/gpu-maxwell/src/address_space.rs:1713-1756 | replacing one mapping by pieces of it changes only the translations of the addresses the mapping covered |
| `TableEdits.PiecesLookup` | crates/gpu-maxwell/src/address_space.rs:1713-1756 | splitting a mapping at a range leaves every address outside the range translated as before |
| `TableEdits.ReplaceMappingRange` | crates/gpu-maxwell/src/address_space.rs:1713-1756 | exactly the addresses of the range lose their translation, the table stays disjoint, entries that do not meet the range are kept verbatim and the remains of the others carry the new generation |
| `TableEdits.PaintMappingRange` | crates/gpu-maxwell/src/address_space.rs:1050-1105 | inside the range only kind and cacheability of the selected identity change; entries that do not meet the range are kept verbatim and the pieces of the others carry the new generation |
| `TableEdits.RangeBelongsTo` | crates/gpu-maxwell/src/address_space.rs:1016-1048 | the coverage loop passes if and only if every address of the range belongs to the identity |
| `SpaceState.EditKeepsValid` | crates/gpu-maxwell/src/address_space.rs:906-1107 | tables cut from a valid table stay disjoint, each mapping stays wholly inside one reservation or outside all, sparse agrees with the reservation and every identity keeps one backing displacement |
| `SpaceState.ReserveKeepsValid` | crates/gpu-maxwell/src/address_space.rs:654-717 | a reservation over free space keeps every table invariant |
| `SpaceState.ReleaseKeepsValid` | crates/gpu-maxwell/src/address_space.rs:720-753 | removing a reservation with the mappings inside it keeps every table invariant |
| `SpaceOperations.RoundUpLeast` | crates/gpu-maxwell/src/address_space.rs:1783-1788 | rounding up gives the least multiple that is not smaller |
| `SpaceOperations.NoFitAcross` | crates/gpu-maxwell/src/address_space.rs:1401-1429 | no aligned candidate between a blocked one and the end of its obstacle fits |
| `SpaceOperations.CheckMap` | crates/gpu-maxwell/src/address_space.rs:763-808 | the request checks of map pass if and only if the request is well formed |
| `SpaceOperations.CheckFixed` | crates/gpu-maxwell/src/address_space.rs:810-829 | a fixed address is accepted if and only if it is aligned, free of mappings and wholly inside one reservation |
| `SpaceOperations.CheckFree` | crates/gpu-maxwell/src/address_space.rs:720-750 | free is accepted if and only if offset, page count and page size name a reservation and a generation remains when mappings go |
| `SpaceOperations.UnmapLookup` | crates/gpu-maxwell/src/address_space.rs:876-899 | unmapping an identity removes the translation of exactly its addresses |
| `SpaceOperations.ReleaseLookup` | crates/gpu-maxwell/src/address_space.rs:720-753 | after free no address of the released range is mapped and every other translation is kept |
| `SpaceOperations.InstallEvolves` | crates/gpu-maxwell/src/address_space.rs:838-869 | a new mapping extends the table by exactly its addresses with a fresh identity and generation |
| `SparseRemap.CheckEntry` | crates/gpu-maxwell/src/address_space.rs:1667-1711 | one remap entry passes if and only if it is aligned, inside a sparse reservation and its backing covers it |
| `SparseRemap.ValidateList` | crates/gpu-maxwell/src/address_space.rs:906-927 | the list passes if and only if every entry passes and entries are pairwise apart |
| `SparseRemap.ApplyList` | crates/gpu-maxwell/src/address_space.rs:928-985 | the applied list is the pointwise update: addresses of an entry take that entry's translation or none, and all others keep theirs; mappings that meet no entry are kept verbatim and all others carry the new generation |
| `AddressSpace.MaxwellGpuAddressSpace.constructor` | crates/gpu-maxwell/src/address_space.rs:525-535 | a new address space is empty and valid |
| `AddressSpace.MaxwellGpuAddressSpace.Initialize` | crates/gpu-maxwell/src/address_space.rs:576-646 | regions are established once, exactly for acceptable geometry, and a refusal changes nothing |
| `AddressSpace.MaxwellGpuAddressSpace.OverlappingEnd` | crates/gpu-maxwell/src/address_space.rs:1401-1429 | a candidate range is blocked if and only if a reservation or mapping meets it, and the result is the greatest end of those |
| `AddressSpace.MaxwellGpuAddressSpace.FindFirstFit` | crates/gpu-maxwell/src/address_space.rs:1401-1440 | the result is the least aligned address whose whole range lies in the region and avoids every reservation and mapping; without a result there is none |
| `AddressSpace.MaxwellGpuAddressSpace.Reserve` | crates/gpu-maxwell/src/address_space.rs:654-717 | succeeds exactly when allowed, adds one reservation and leaves every translation alone; a failure changes nothing |
| `AddressSpace.MaxwellGpuAddressSpace.PlaceReservation` | crates/gpu-maxwell/src/address_space.rs:680-705 | an offset is found if and only if the fixed range fits or an aligned fit exists, and it is the fixed one or the least fit |
| `AddressSpace.MaxwellGpuAddressSpace.Free` | crates/gpu-maxwell/src/address_space.rs:720-753 | succeeds exactly when allowed, removes the reservation and every mapping over it, keeps all other entries verbatim, and advances the generation exactly when a mapping went |
| `AddressSpace.MaxwellGpuAddressSpace.Place` | crates/gpu-maxwell/src/address_space.rs:810-836 | an address is found if and only if the request can be placed, and it is the fixed one or the first fit |
| `AddressSpace.MaxwellGpuAddressSpace.Map` | crates/gpu-maxwell/src/address_space.rs:763-869 | succeeds exactly when allowed; the new mapping translates its range to the requested backing bytes and every other address is as before |
| `AddressSpace.MaxwellGpuAddressSpace.FindByUnmapOffset` | crates/gpu-maxwell/src/address_space.rs:876-888 | picks the lowest-addressed piece with the unmap offset, or there is none |
| `AddressSpace.MaxwellGpuAddressSpace.Unmap` | crates/gpu-maxwell/src/address_space.rs:876-899 | removes exactly the pieces of the picked identity, returned in address order, and keeps all other entries verbatim |
| `AddressSpace.MaxwellGpuAddressSpace.RemapSparse` | crates/gpu-maxwell/src/address_space.rs:906-985 | applies all entries or none, as the pointwise update of the translation; mappings that meet no entry are kept verbatim |
| `AddressSpace.MaxwellGpuAddressSpace.ModifyMapping` | crates/gpu-maxwell/src/address_space.rs:988-1107 | succeeds exactly when the whole range belongs to the picked identity; only kind and cacheability inside the range change, mappings that do not meet it are kept verbatim, and only the pieces of the others carry the new generation |
| `Resolution.PredecessorAgrees` | crates/gpu-maxwell/src/address_space.rs:1115-1156 | looking at the predecessor entry agrees with scanning every mapping |
| `Resolution.ResolveMaximal` | crates/gpu-maxwell/src/address_space.rs:1115-1156 | returns the longest suffix of the covering mapping exactly when the address is accessible, and otherwise the error of that address |
| `Resolution.ResolutionIsUnique` | crates/gpu-maxwell/src/address_space.rs:1159-1193 | a table resolves a range in one way only |
| `Resolution.ResolvedMeans` | crates/gpu-maxwell/src/address_space.rs:1159-1193 | a resolved range gives every address the byte and the rights that the table gives it |
| `Resolution.ResolvedGrants` | crates/gpu-maxwell/src/address_space.rs:1633-1657 | a range resolved with a right lies over backings that grant it |
| `Resolution.RetainedBytesAreFresh` | crates/gpu-maxwell/src/address_space.rs:1220-1276 | the retained bytes of a range that the table resolves are those of a fresh access |
| `AddressSpace.MaxwellGpuAddressSpace.ResolveRange` | crates/gpu-maxwell/src/address_space.rs:1159-1193 | succeeds if and only if every address of the non-empty in-width range is mapped with the rights; its segments tile the range; otherwise the reported address is the least failing one |
| `AddressSpace.MaxwellGpuAddressSpace.ReadResolved` | crates/gpu-maxwell/src/address_space.rs:1220-1276 | succeeds if and only if space, right, size and every retained mapping check out; a refusal leaves the output untouched |
| `SpaceHistory.CountersGrow` | crates/gpu-maxwell/src/address_space.rs:1442-1460 | generations never decrease along a history |
| `SpaceHistory.CurrentWasNeverReplaced` | crates/gpu-maxwell/src/address_space.rs:1329-1338 | a retained mapping that passes the four-field check is the live entry in every field and has been so in every state between |
| `SpaceHistory.StaleStaysStale` | crates/gpu-maxwell/src/address_space.rs:1329-1338 | a retained mapping that stops being current never becomes current again |
| `SpaceHistory.Perform` | crates/gpu-maxwell/src/address_space.rs:576-1107 | across one operation, accepted or refused, a held mapping stays current if and only if the operation does not touch it |
| `SpaceHistory.CurrentIffUntouched` | crates/gpu-maxwell/src/address_space.rs:1329-1338 | after any operations a mapping held at the start is current if and only if none of them touched it |
| `SpaceHistory.RetainedRangeIsFresh` | crates/gpu-maxwell/src/address_space.rs:1220-1276 | a range whose mappings are all current later is what a fresh resolution returns then |
| `SpaceHistory.Run` | crates/gpu-maxwell/src/address_space.rs:576-1107 | any sequence of operations, failing ones included, goes through a history of valid states, and at each step exactly the mappings that the operation touches stop being current |
| `SpaceHistory.ReadAfter` | crates/gpu-maxwell/src/address_space.rs:1159-1276 | resolve, run any operations, read: succeeds if and only if none of them touched a mapping of the range, and then gives the bytes and rights of a fresh access; otherwise refused as stale before a byte is copied |
| `Gpfifo.DecodeEntry` | crates/gpu-maxwell/src/gpfifo.rs:973-1028 | a descriptor is accepted exactly when no reserved or conditional bit is set, it has words and they end below the address limit |
| `Gpfifo.EncodeDecoded` | crates/gpu-maxwell/src/gpfifo.rs:973-1028 | an accepted descriptor encodes to the same two words |
| `Gpfifo.DecodeEncoded` | crates/gpu-maxwell/src/gpfifo.rs:973-1028 | every valid entry is what its encoding decodes to |
| `Gpfifo.CheckRequest` | crates/gpu-maxwell/src/gpfifo.rs:911-965 | request checks pass if and only if counts and sizes agree and the flags are those of a supported mode |
| `Gpfifo.FlagFields` | crates/gpu-maxwell/src/gpfifo.rs:32-54 | the decoded mode encodes to the flags exactly when no flag is unknown, the hardware format is chosen and no sync fence is passed |
| `Gpfifo.DecodeSubmission` | crates/gpu-maxwell/src/gpfifo.rs:905-1046 | decodes all entries or none; the accepted entries and mode encode to the very bytes and flags; a rejected entry is the first unacceptable one |
| `GpfifoSources.SegmentsKeepWords` | crates/gpu-maxwell/src/gpfifo.rs:347-392 | segments of a word-aligned range start and end at words |
| `GpfifoSources.WordLocation` | crates/gpu-maxwell/src/gpfifo.rs:347-392 | defined for exactly the words of the submission and names the segment that holds the word |
| `GpfifoSources.NamedMappingTranslates` | crates/gpu-maxwell/src/gpfifo.rs:347-392 | the named mapping holds the whole word and translates its four addresses |
| `GpfifoSources.ValidateSources` | crates/gpu-maxwell/src/gpfifo.rs:281-308 | passes if and only if the space is the right one and every retained mapping is current |
| `GpfifoSources.FreshSourcesAreCurrent` | crates/gpu-maxwell/src/gpfifo.rs:704-712 | a submission just resolved passes validation |
| `GpfifoSources.ResolveSubmission` | crates/gpu-maxwell/src/gpfifo.rs:662-713 | resolves every entry or none, and a failure names the first entry that cannot be read |
| `GpfifoSources.ReadPushbuffer` | crates/gpu-maxwell/src/gpfifo.rs:314-344 | succeeds if and only if every source is current and the output has the entry's size; otherwise nothing is written |
| `GpfifoSources.RetainedSubmissionIsFresh` | crates/gpu-maxwell/src/gpfifo.rs:281-344 | over any history, a validated submission reads what a fresh access would |
| `WriteBatch.RecordedDirty` | crates/memory/src/backing.rs:2296-2307 | recording a dirty range marks exactly its bytes |
| `WriteBatch.CanonicalWriteBatch.Stage` | crates/memory/src/backing.rs:2635-2760 | succeeds exactly when in bounds and writable, and then stands for the earlier writes followed by this one |
| `WriteBatch.CanonicalWriteBatch.ReadOverlay` | crates/memory/src/backing.rs:2559-2619 | reads canonical bytes with the staged writes laid over them |
| `WriteBatch.CanonicalWriteBatch.CommitOrdered` | crates/memory/src/backing.rs:2773-2870 | leaves memory with the staged writes laid over it |
| `RangeAccess.CopySegments` | crates/gpu-maxwell/src/execution.rs:1451-1470 | the pieces of a sub-range follow each other over exactly its bytes |
| `RangeAccess.ReadSubrange` | crates/gpu-maxwell/src/execution.rs:1511-1534 | reads the sub-range through the staged writes and succeeds whenever reading is granted |
| `RangeAccess.StageSubrange` | crates/gpu-maxwell/src/execution.rs:1472-1493 | stages the bytes over exactly the sub-range and succeeds whenever writing is granted |
| `RangeAccess.StageInline` | crates/gpu-maxwell/src/execution.rs:1556-1609 | refuses a target without write right or of another size, and otherwise stages the bytes over exactly the target |
| `MemoryCopy.LastRegionWins` | crates/gpu-maxwell/src/execution.rs:1369-1410 | in the flat copy each byte is what the last region over it copies, or is unchanged |
| `MemoryCopy.CacheCopy` | crates/gpu-maxwell/src/execution.rs:1380-1409 | copying a run into one cached page keeps the cache equal to the flat copy |
| `MemoryCopy.CopyRegionPages` | crates/gpu-maxwell/src/execution.rs:1378-1410 | one region is copied page by page, and exactly its pages are fetched |
| `MemoryCopy.StageMemoryCopy` | crates/gpu-maxwell/src/execution.rs:1354-1421 | the staged writes become the flat copy of every region from the source snapshot, on touched pages only |
| `MemoryCopy.PageCopyIsFlatCopy` | crates/gpu-maxwell/src/execution.rs:1369-1421 | when destination offsets that are the same byte take it from the same source offset, as with distinct bytes, the page-cached copy is the flat copy and stages only touched pages |
| `MemoryCopy.AliasedCopyDiffers` | crates/gpu-maxwell/src/execution.rs:1369-1421 | when two such offsets disagree there are contents for which the page-cached copy is not the flat copy |
| `MemoryCopy.DistinctAgrees` | crates/gpu-maxwell/src/execution.rs:1369-1421 | distinct destination bytes always satisfy that condition |
| `MemoryCopy.StagedCopyIsCopyNow` | crates/gpu-maxwell/src/execution.rs:1354-1421 | a staged copy seen through the overlay is the copy performed at once |
| `ByteOrder.StoredValue` | crates/gpu-maxwell/src/execution.rs:1037-1062 | a value that fits survives being stored little-endian |
| `ByteOrder.LoadedBytes` | crates/gpu-maxwell/src/gpfifo.rs:974-975 | loaded bytes are those the loaded value stores |
| `Submission.NotificationBytes` | crates/gpu-maxwell/src/execution.rs:1030-1043 | a notification is the timestamp and eight cleared bytes |
| `Submission.ReleaseBytes` | crates/gpu-maxwell/src/execution.rs:1044-1070 | a release is payload, four cleared bytes and timestamp, or the payload alone |
| `Submission.DeviceWritesMean` | crates/gpu-maxwell/src/execution.rs:1215-1234 | the device write commands store the bytes over exactly the resolved segments |
| `Submission.InlineIsOneWrite` | crates/gpu-maxwell/src/execution.rs:1092-1127 | an inline write stores its bytes over the target whether the CPU or the device performs it |
| `Submission.CompletionIsOneWrite` | crates/gpu-maxwell/src/execution.rs:1025-1070 | a notification or release stores its bytes over the target, where later steps read them |
| `Submission.InStepCommit` | crates/gpu-maxwell/src/execution.rs:1236-1245 | committing staged writes keeps memory, executed commands and pending commands in program order |
| `Submission.InStepDevice` | crates/gpu-maxwell/src/execution.rs:1030-1091 | recording the commands of a device step after a commit keeps program order, device writes and rendering work included |
| `Submission.InStepCpu` | crates/gpu-maxwell/src/execution.rs:1092-1140 | staging a CPU step while the device has nothing to execute keeps program order |
| `Submission.InStepExecute` | crates/gpu-maxwell/src/execution.rs:1215-1234 | a command executed at any later time sees the memory that everything before it leaves, and keeps program order |
| `Execution.MaxwellBackendExecution.constructor` | crates/gpu-maxwell/src/execution.rs:891-909 | a new delivery has nothing pending |
| `Execution.MaxwellBackendExecution.AppendSteps` | crates/gpu-maxwell/src/execution.rs:911-923 | steps are added in order and the operation count stays exact |
| `Execution.MaxwellBackendExecution.RetireConsumedSteps` | crates/gpu-maxwell/src/execution.rs:925-932 | exactly the consumed steps are dropped |
| `Execution.MaxwellBackendExecution.Seal` | crates/gpu-maxwell/src/execution.rs:934-937 | closes an open delivery and keeps its bookkeeping |
| `Execution.MaxwellBackendExecution.AcceptSegment` | crates/gpu-maxwell/src/execution.rs:949-952 | a pending segment is accepted once, and its commands follow those that the device already has |
| `Execution.MaxwellBackendExecution.DeviceExecutes` | crates/gpu-maxwell/src/execution.rs:1215-1234 | the device may execute the next accepted command at any time; the delivery stays in program order |
| `Execution.MaxwellBackendExecution.MakeCpuVisible` | crates/gpu-maxwell/src/execution.rs:1511-1534 | after it every accepted command has taken effect, in order, before the CPU reads or writes |
| `Execution.MaxwellBackendExecution.TakeSegment` | crates/gpu-maxwell/src/execution.rs:1193-1211 | a segment is cut exactly when commands are recorded or a last one is owed; numbers stay consecutive and only the last is marked |
| `Execution.MaxwellBackendExecution.AppendDeviceWrite` | crates/gpu-maxwell/src/execution.rs:1215-1234 | one command per segment with its part of the bytes |
| `Execution.MaxwellBackendExecution.StageWrites` | crates/gpu-maxwell/src/execution.rs:1107-1140 | the staged step, seen through the overlay, is the step performed at once |
| `Execution.MaxwellBackendExecution.ExecuteStep` | crates/gpu-maxwell/src/execution.rs:1017-1153 | a CPU step sees all earlier device writes, staged writes and pending commands are never both present, and the step's commands are recorded in order |
| `Execution.MaxwellBackendExecution.NextSegment` | crates/gpu-maxwell/src/execution.rs:979-1170 | the segment holds exactly the commands of the steps the call consumed, a publishing step is the last of them, between calls nothing is staged or recorded, and memory with the pending commands is what performing every consumed step at once leaves |
| `Execution.FinishedDelivery` | crates/gpu-maxwell/src/execution.rs:979-1211 | when a delivery finishes, every appended step was performed in order, executed and pending commands are those of the run, each on the memory that everything before it leaves, memory with the pending commands performed is that of the run, every command was handed over once, and the last segment alone is marked |
| `Execution.ExecutedDelivery` | crates/gpu-maxwell/src/execution.rs:979-1211 | once the device has executed everything, the executed commands and memory are those of performing each step at once |
| `Planner.AppendedIsResolved` | crates/gpu-maxwell/src/address_space.rs:381-392 | appending in place equals resolving the longer range again |
| `Planner.WordsAreOneWrite` | crates/gpu-maxwell/src/execution.rs:647-709 | one write of a run of words is a write per word |
| `Planner.CoalescedWrite` | crates/gpu-maxwell/src/execution.rs:647-743 | the longer write is the shorter one followed by a write per new word, whoever performs each |
| `Planner.MaxwellSubmissionPlanner.PushInlineWords` | crates/gpu-maxwell/src/execution.rs:647-709 | accepted exactly when the words continue the last upload or resolve; the plan then does what one resolved write per word does, whether the CPU or the device performs it |
| `Planner.MaxwellSubmissionPlanner.PushInlineWrite` | crates/gpu-maxwell/src/execution.rs:711-743 | the same for one word |
| `Planner.MaxwellSubmissionPlanner.PushStep` | crates/gpu-maxwell/src/execution.rs:566-576 | other steps are appended in order and keep the meaning of the plan |
| `Planner.MaxwellSubmissionPlanner.TakeReadySteps` | crates/gpu-maxwell/src/execution.rs:269-276 | hands over nothing while an upload may grow, and otherwise steps that are ready for execution and mean all requests |
| `Planner.MaxwellSubmissionPlanner.FinishPacket` | crates/gpu-maxwell/src/execution.rs:745-754 | hands over the whole plan: every step is resolved, granted and covered by its bytes, and performing them at any times, by CPU or device, does what the requests ask word by word |
| `PacketDelivery.PacketsRun` | crates/gpu-maxwell/src/frontend.rs:168-170 | performing the steps of all packets does what the requests of each ask, in the address space it was planned in |
| `PacketDelivery.PacketsAreAccepted` | crates/gpu-maxwell/src/execution.rs:979-1170 | at any point of the delivery of finished packets the next segment can be asked for and no step is refused, whatever is device owned |
| `PacketDelivery.HandOver` | crates/gpu-maxwell/src/frontend.rs:168-170 | ends a packet and adds its steps to an open delivery of the packets before it |
| `PacketDelivery.DeliveredPackets` | crates/gpu-maxwell/src/execution.rs:911-1211 | however a delivery was cut into segments and executed, memory ends as the requests of its packets ask, word by word |
| `InvalidationLog.MemoryInvalidationLog.Publish` | crates/memory/src/invalidation.rs:311-317 | the ring holds the most recent records, each in its slot |
| `InvalidationLog.MemoryInvalidationLog.PublishMany` | crates/memory/src/invalidation.rs:273-291 | the changes of one mutation get consecutive cursors |
| `InvalidationLog.MemoryInvalidationLog.ReadSince` | crates/memory/src/invalidation.rs:223-261 | returns exactly the records after the cursor, or reports loss if and only if more than the capacity were published since |
| `Coherence.UnaffectedIsCoherent` | crates/cpu-jit/src/invalidation.rs:31-97 | a block that no record concerns is the code memory holds |
| `Coherence.ContentChangeIsCaught` | crates/cpu-jit/src/invalidation.rs:55-83 | a content change is caught by the page's current alias or by the remapping that removed the alias |
| `Coherence.SurvivorIsUnaffected` | crates/cpu-jit/src/invalidation.rs:31-97 | a surviving block is concerned by no record so far |
| `JitInvalidation.Gather` | crates/cpu-jit/src/invalidation.rs:53-77 | collects exactly the changed ranges and pages, or says that everything goes |
| `JitInvalidation.AppendMappedAliasRanges` | crates/cpu/src/memory/execution.rs:1535-1556 | adds exactly the pages that map the physical pages now |
| `JitInvalidation.Invalidations.Synchronize` | crates/cpu-jit/src/invalidation.rs:31-97 | on success the cursor is the end of the log, no cached block is concerned by a record before it and unconcerned blocks are kept; a refusal leaves the cursor |
| `JitInvalidation.SynchronizedIsCoherent` | crates/cpu-jit/src/invalidation.rs:31-97 | after synchronisation every cached block is what memory holds |
| `JitRuns.SoundRun` | crates/cpu-jit/src/lib.rs:388-393 | every run of changes, compilations, synchronisations and refusals keeps the cache sound |
| `JitRuns.AcknowledgedMeansCoherent` | crates/cpu-jit/src/lib.rs:388-393 | in every run an acknowledged epoch means no cached block is concerned by a record up to it |
| `JitRuns.SynchronizeAddressSpace` | crates/cpu-jit/src/lib.rs:229-249 | synchronising and acknowledging is a step of such a run |
| `Control.NothingIsLost` | crates/cpu/src/execution.rs:416-447 | in every interleaving a requested invalidation is acknowledged, about to be flagged, flagged, or held by the one poll that took it with an epoch that covers it |
| `Control.SnapshotCoversRequests` | crates/cpu/src/execution.rs:425-447 | in every interleaving a snapshot carries an epoch that covers every invalidation it consumed, so acknowledging it acknowledges them |
| `Control.UnconsumedStaysPending` | crates/cpu/src/execution.rs:416-439 | a flagged request that no poll consumed is still pending |
| `Control.ConsumedOnce` | crates/cpu/src/execution.rs:433-439 | what one poll consumed no other poll ever consumes |
| `Control.OrderedStep` | crates/cpu/src/execution.rs:416-453 | every atomic operation of any thread keeps each invalidation tracked, and epochs never go back |
| `Control.CpuControl.RequestInvalidation` | crates/cpu/src/execution.rs:425-430 | is the announcement followed by the flag, so the interleaving results hold of it; afterwards the request is pending and no other request moved |
| `Control.CpuControl.TakePending` | crates/cpu/src/execution.rs:433-439 | is the swap followed by the load; every invalidation that was flagged is in the snapshot, which covers its epoch, and nothing stays pending |
| `Control.CpuControl.AcknowledgeSnapshot` | crates/cpu/src/execution.rs:441-447 | everything the snapshot consumed is acknowledged, and beyond what was acknowledged only epochs that a snapshot with an invalidation covers |
| `Control.CpuControl.AcknowledgeInvalidation` | crates/cpu/src/execution.rs:449-453 | acknowledges exactly the epochs up to the given one and those acknowledged before |
| `GuestRegisters.GetSet` | crates/cpu/src/state/a64.rs:134-151 | a write is seen by reads of that register only and the zero register stays zero |
| `GuestRegisters.NumbersAgree` | crates/cpu-jit/native/bridge.cpp:299-358 | register numbers reach the same registers as names |
| `GuestRegisters.SplitWide` | crates/cpu-jit/src/state.rs:203-243 | a vector survives being split into two lanes |
| `Residency.ThreadState.Materialize` | crates/cpu-jit/src/state.rs:75-87 | the registers move to the save area, the core is freed and no thread observes a change |
| `Residency.ThreadState.LeaveCore` | crates/cpu-jit/src/state.rs:88-95 | also ends the core's local reservation |
| `Residency.ThreadState.Select` | crates/cpu-jit/src/state.rs:114-138 | succeeds exactly on the thread's own core or an unowned one; a core is owned exactly when one thread is resident on it; no thread observes a change |
| `Residency.ThreadState.Snapshot` | crates/cpu-jit/src/state.rs:96-109 | a copy of the observed registers |
| `Residency.ThreadState.Discard` | crates/cpu-jit/src/state.rs:72-74 | frees the core and changes no other thread |
| `Residency.ThreadState.Read` | crates/cpu-jit/src/state.rs:139-164 | reads the observed register file wherever it is |
| `Residency.ThreadState.Write` | crates/cpu-jit/src/state.rs:146-173 | writes the observed register file wherever it is and disturbs no other thread |
| `Residency.ThreadState.ReadVector` | crates/cpu-jit/src/state.rs:203-222 | reads a vector of the observed file, if the index is one |
| `Residency.ThreadState.WriteVector` | crates/cpu-jit/src/state.rs:224-243 | writes a vector of the observed file, if the index is one |
| `Residency.ThreadState.Executed` | crates/cpu-jit/native/bridge.cpp:376-395 | guest code on a core changes the registers of its one owner only |
| `Residency.VectorReadsBack` | crates/cpu-jit/src/state.rs:203-243 | a written vector is read back and the others are kept |
| `Residency.OwnersAreUnique` | crates/cpu-jit/src/state.rs:25-37 | a core is owned exactly when one thread is resident on it, and by one only |
| `Residency.Clone` | crates/cpu-jit/src/state.rs:313-318 | a copy has the same registers and is resident nowhere |
| `Audio.DrainConserves` | crates/audio/src/lib.rs:124-141 | released buffers are played to the end and with the queue they are the old queue in order |
| `Audio.DrainPlaysPending` | crates/audio/src/lib.rs:124-141 | the output is the pending samples in order and the rest stays pending |
| `Audio.DrainInChunks` | crates/audio/src/lib.rs:124-141 | draining in two goes is draining at once |
| `Audio.RenderInChunks` | crates/audio/src/lib.rs:114-148 | rendering two quanta of whole frames gives the output, buffers and frame count of one |
| `Audio.AudioQueue.Render` | crates/audio/src/lib.rs:114-148 | plays pending samples then silence, counts whole frames exactly up to saturation and keeps tags and ready flag right |
| `Audio.AudioQueue.Start` | crates/audio/src/lib.rs:203-209 | starts unless the device failed |
| `Audio.AudioQueue.StopRegion` | crates/audio/src/lib.rs:215-222 | from any state, releases every queued buffer in order |
| `Audio.AudioQueue.Stop` | crates/audio/src/lib.rs:211-222 | stops a started queue and conserves every tag |
| `Audio.AudioQueue.Append` | crates/audio/src/lib.rs:224-247 | accepts exactly complete frames on a working device |
| `Audio.AudioQueue.Released` | crates/audio/src/lib.rs:258-269 | collects the oldest released tags and resets the ready flag exactly when none wait |
| `Audio.AudioQueue.RecycleBuffer` | crates/audio/src/lib.rs:273-278 | takes the oldest released buffer |
| `Audio.AudioQueue.Fail` | crates/audio/src/lib.rs:151-154 | keeps the error and wakes the consumer |

## Left out

- The remap form of memory copies (component swizzling and constants), and the computation of copy regions from pitch and block-linear layouts; regions are given and in bounds.
- Engine lowering and the other engines' events; plans receive the steps other than inline writes as given, with resolved ranges, rights and sizes as lowering makes them.
- CPU visibility of device-owned pages: whether an inline target is device owned is an input of each call, any value. Before a CPU step all accepted device work takes effect, where the code resolves the pages it reads and the device has captured what earlier work consumes; visibility resolution cannot fail.
- Guest CPU and other writers of canonical memory during a delivery.
- Commit errors (stale snapshots, lost page locks) and the state after a failed call; staged writes always commit.
- Host allocation failures, performance counters, traces and diagnostic captures.
- Address spaces that were cloned; histories are linear.
- Page-aligned rounding is stated on numbers, not on bit masks, and reservation and mapping sizes are kept in bytes.
- Backing segments are taken to stay inside 4096-byte canonical pages, as their constructor makes them.
- The order in which invalidation ranges are sent to the native cache: they are a set, since only which blocks survive matters.
- Native code generation, signal handling, the FFI and SDL; loading and saving a native core and dropping its blocks are single operations, and a native NZCV holds condition bits only.
- The per-register accessors of a thread state, which all go through one read and one write.
- `contains`, counters and formatting of the audio queue, and the host backend.
- Execution.MaxwellBackendExecution.NextSegment: does not say which error a refused step reports, because the delivery is not resumed after one.
- Audio.AudioQueue.Start: is stated for uninterrupted calls; the second locked region is also proved from any state, as StartRegion.
