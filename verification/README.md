# Razor: a verified model of the cache

Razor is an HTTP caching proxy whose `cache` package is a log-structured disk
cache. This project models the parts of it whose correctness is hardest to see
in the code, in Dafny, and proves what they keep. `dafny verify dfyconfig.toml`
checks everything.

## What is modelled

**Ring log** (`AggregateBuffer`, `History`, `RingLog`, `RingSafety`,
`LatePublication`, `RingProgress`, `StripeWorker`). Records go through two alternating buffers
and one disk worker into a ring on disk. A write cursor wraps and carries a
full generation; directory entries keep one phase bit. Every section under a
mutex is one step, and the unlocked disk write is visible as three kinds of
step, so that additions, publications, removals and aborts interleave with a
write that has changed only some bytes. The history of all records ever placed
is kept beside the state; the disk is compared with its replay. The buffer is a
class over two arrays and the stripe a class over an array, each proved equal
to the step it performs.

Two steps can give an entry the phase bit of a generation that is not its own:
an allocation two generations older than a write in flight can be published
during that write, and a back link of the directory can change the bit of an
entry in place. `LatePublication` gives the exact condition under which such a
step is harmless, shows that every other one can be misread later, and reaches
both in concrete runs.

**Directory** (`DirEntry`, `DirectoryRep`, `DirectoryView`, `DirectoryMoves`,
`DirectorySegment`, `DirectorySweep`, `DirectoryIndex`, `DirectoryCheck`). Bucket chains and a
doubly linked free list share the cells of one array. The class works on that
array in place; its abstraction is a table of buckets, and over whole histories
a lookup finds the last surviving store. When a cell is given back to an empty
free list, the back link is written into cell 0 and replaces the tag of bucket
0's head, or its phase bit alone; the model keeps this, with the exact condition
under which nothing else changes. Other buckets are never affected; in bucket 0
the model follows which tags are in disorder. In the ring log such a change, also
one at the end of a sweep, is a step of its own.

**Fragments** (`Doc`, `Fragments`, `FragmentStore`, `FragmentWriter`,
`FragmentReader`, `FragmentRefresh`, `RefreshTails`, `FragmentRoundTrip`). An object is cut into fragments of one
mebibyte and fragment 0 is the commit point. `FragmentStore` holds the records
and the entries that are valid now; between any two critical sections a
schedule of other parties adds records, publishes, replaces and loses entries,
or refuses the next section. The results hold for every schedule. That valid
entries name unchanging records is what the ring log proves
(`RingSafety.CommitCheckSound`, `RingSafety.PhaseBitSound`).

**Fences** (`Fences`, `FenceRuns`, `FenceReach`, `FenceProgress`, `FenceCache`,
`IdentityIndex`, `OpenDir`).
Tokens, derived tokens, writers, heads, purges, invalidations, metadata
refreshes and wraps as steps over all stripes, with runs of any length. The
operations that loop over the stripes are class methods proved equal to the
steps. A head here is a publication with its own number; that comparing
directory entries has the same effect is shown by `RingSafety.SnapshotIsCurrent`.
A purge finds what it removes in the identity index. A full index drops the
identity of an object whose bytes are being overwritten, and the evacuation can
put that object back without it: such an object outlives a purge, and the
results say exactly when.

**Memory cache** (`S3Fifo`, `RamCache`). Three queues, one map and byte
counters, with the eviction scans in closed form.

**Smaller cores** (`FillGroup`, `RangeBlocks`, `StripeLayout`, `Policy`).

## Conventions

- MD5, SHA-256 and CRC are parameters or are replaced by the values they stand
  for: a fragment key is a key and a number, a policy slot and a stripe are
  functions of a name. Random versions are assumed to be distinct.
- The clock, cancellation, storage failures, random choices and the results of
  I/O are parameters of the operation or of the step.
- Counters that are 64-bit in the source are unbounded, except where the source
  saturates or truncates: durations, entry words and header fields.
- The comment on the directory's `Get` says that a miss returns the position of
  the last entry of the bucket; the code returns that of cell 0 when the chain
  has been walked to its end, and the model follows the code.
- `purgeRandom33` is never called and is not modelled.

## Model

| member | source | states |
|---|---|---|
| `RingSafety.ReadBack` | cache/stripe.go:280-288 | in every run without a storage error, an allocation that is still called valid reads back exactly the bytes that were added, also while another write is in flight |
| `RingSafety.PhaseBitSound` | cache/stripe.go:229-245 | over every run that publishes in time and in which no back link changes a phase bit, a valid directory entry leads to its whole record, and its single phase bit names the full generation of that record |
| `RingSafety.StepKeepsCurrentExactly` | cache/stripe.go:229-245 | from a directory of current entries, a step leaves one if and only if it publishes nothing two generations older than the write in flight and changes no phase bit |
| `RingSafety.FlushBarrier` | cache/aggregate_write_buffer.go:207-227 | a flush through a sequence succeeds only when every record up to it has been written and acknowledged without error; its bytes are on the disk unless a later record was placed over them |
| `RingSafety.AbortRemovesOwnEntry` | cache/cache_write.go:206-225 | an aborting writer that finds its own offset under a valid allocation finds its own entry, after any run: no later publication is removed |
| `RingSafety.CommitCheckSound` | cache/cache_write.go:465-476 | the check before the commit is sound: the entry is the writer's own and its bytes are on the disk |
| `RingSafety.SnapshotIsCurrent` | cache/stripe.go:357-364 | an entry that passes for a snapshot (equal offset and phase, a generation at most one lap old) after any run: if the snapshot's bit named its generation, it is for the same record if and only if it has the phase of its record; if not, if and only if nothing was published under the key since |
| `RingSafety.InvalidationRemovesSnapshot` | cache/http_update.go:203-236 | an invalidation that compares head and first byte removes the head of the snapshot and no later one, however many laps the ring made, under exactly those conditions; a run that changes no phase bit keeps the phase |
| `RingSafety.EvacuationKeepsContents` | cache/stripe.go:342-364 | when the evacuation's checks succeed, the entry was current when it was copied, and the entry now has the phase of its record, as it has in every run that changes no phase bit, the entry it replaces is for the record it copied |
| `RingSafety.SteadyKeepsPhases` | cache/dir_manager.go:159-170 | in a run in which no back link changes a phase bit every entry keeps the phase of its record |
| `RingSafety.ChangedBitPassesForSnapshot` | cache/stripe.go:357-361 | otherwise the checks can be fooled: an entry of the next generation at the same offset passes for the snapshot |
| `RingSafety.LatePassesForSnapshot` | cache/http_update.go:219-228 | and so can a snapshot of an entry that was published late: one that is published two generations later at the same offset passes for it |
| `LatePublication.LateSnapshotIsReachable` | cache/http_update.go:219-228 | a concrete run in which this happens |
| `RingSafety.RunIsLater` | cache/stripe.go:220-266 | over every run records are only added, `completed`, the flushed prefix and the generation never decrease, and an old entry is unchanged up to its phase bit or gone |
| `RingSafety.UntouchedIsOnDisk` | cache/stripe.go:237-246 | a written record over which nothing later was placed is on the disk |
| `RingProgress.AllocationValidExactly` | cache/stripe.go:280-288 | in every live state an allocation is called valid if and only if its record is on the disk, is not two generations old, has its first byte, and no write of another generation is in flight over it |
| `RingProgress.EntryValidExactly` | cache/stripe.go:289-301 | a current directory entry is called valid if and only if no later record on the disk covers its first byte and no write of another generation is in flight over its range: objects of the previous lap stay readable until they are overwritten |
| `RingProgress.KeptIsIntact` | cache/stripe.go:280-301 | a record of the last two generations has its first byte if and only if the cursor has not passed it in a new lap |
| `RingProgress.SweepTakesExactly` | cache/stripe.go:231-234 | the sweep before a new generation takes an entry if and only if its record is two generations older than the write, and leaves the others unchanged |
| `RingProgress.MemoryIsFutureDisk` | cache/aggregate_write_buffer.go:295-308 | bytes read from the buffers are what the disk will hold there once the batch is written, the active batch first; nothing comes back if and only if neither batch covers the place |
| `RingProgress.AddOutcomes` | cache/aggregate_write_buffer.go:123-180 | every way one locked section of an add ends, with its reasons in order, and the place it gives out otherwise |
| `RingProgress.AddFlushesInTime` | cache/aggregate_write_buffer.go:177-179 | an add never leaves half a buffer behind with no flush outstanding, and hands over at most one batch |
| `RingProgress.AddIsPlacedWhenIdle` | cache/aggregate_write_buffer.go:123-180 | an add that waits waits for a worker that is busy; with an idle worker every record that fits is placed |
| `RingProgress.FlushAnswers` | cache/aggregate_write_buffer.go:207-227 | a flush is done once its target is on the disk and acknowledged; one that waits has a task that the worker has not acknowledged |
| `RingProgress.FlushEnds` | cache/aggregate_write_buffer.go:207-249 | from every live state, whatever the worker is doing, hand-overs and the worker's own steps lead to a state where everything added is on the disk and a flush through any target answers that it is done |
| `RingLog.StepKeeps` | cache/stripe.go:220-266 | every step keeps the invariant that ties buffers, worker, stripe fields, directory and disk to the history of records |
| `RingLog.AddAgrees` | cache/aggregate_write_buffer.go:123-180 | the ring's add is the buffer's add: same buffer, same task handed over, and the allocation returned is the place of the record |
| `RingLog.FinishedDisk` | cache/stripe.go:237-246 | a finished write leaves on the disk exactly the replay of one batch more |
| `RingLog.TaskInside` | cache/stripe.go:225-228 | a task of a live ring lies inside the data area and continues the flushed prefix in one generation or restarts at its beginning |
| `RingLog.PublishKeeps` | cache/cache_write.go:465-479 | a publication that passes the validity check names a record that is already flushed |
| `History.ReplayBatch` | cache/aggregate_write_buffer.go:181-192 | the records of one batch are contiguous and writing the batch is writing them one after the other |
| `History.IntactReadsBack` | cache/stripe.go:287 | the generation and cursor test leaves exactly the bytes of the record in the replayed image |
| `LatePublication.HarmlessRunsReadBack` | cache/stripe.go:281-287 | if every publication and every change of a phase bit is harmless (the guards are in `Harmless`), every valid entry reads back its record |
| `LatePublication.OtherStepsCanBeMisread` | cache/stripe.go:281-301 | every other publication and every other change of a phase bit has a continuation, without failure and with documents as long as the one concerned, after which the stripe calls an overwritten entry valid: the condition is exact |
| `LatePublication.LateWindowIsReachable` | cache/cache_write.go:448-476 | a concrete run from a freshly opened stripe of 32768 data bytes, with documents of 512 and 32256 bytes, reaches a late publication that is not harmless |
| `LatePublication.FlipIsReachable` | cache/dir_manager.go:159-170 | in the same stripe a document published in time gets the phase bit of the next lap and is then misread |
| `AggregateBuffer.AggregateWriteBuffer.SwapAndFlushLocked` | cache/aggregate_write_buffer.go:181-192 | the swap emits the active batch, and the send under the mutex finds the channel empty |
| `AggregateBuffer.AggregateWriteBuffer.WrapLocked` | cache/aggregate_write_buffer.go:139-148 | a wrap emits what is buffered, restarts at the lower bound and begins a generation |
| `AggregateBuffer.AggregateWriteBuffer.MakeRoom` | cache/aggregate_write_buffer.go:129-161 | the retry loop: wraps, swaps or waits until the record fits, or stops with the reason |
| `AggregateBuffer.AggregateWriteBuffer.AddSection` | cache/aggregate_write_buffer.go:123-180 | one locked section of an add, as the step function on the two batches, cursor, generation and sequence |
| `AggregateBuffer.AggregateWriteBuffer.Place` | cache/aggregate_write_buffer.go:162-175 | the record is copied behind the bytes already there and the allocation is the old cursor, generation and next sequence |
| `AggregateBuffer.AggregateWriteBuffer.FlushSection` | cache/aggregate_write_buffer.go:207-227 | one locked section of the flush loop; success exactly when `completed` has reached the target |
| `AggregateBuffer.AggregateWriteBuffer.NotifyFlushDone` | cache/aggregate_write_buffer.go:228-249 | acknowledgement sets `completed` to the last sequence of the batch in flight and ends the flush; a failure is kept and empties the active buffer |
| `AggregateBuffer.AggregateWriteBuffer.Receive` | cache/stripe.go:212-214 | the worker takes the one task in flight and leaves the channel empty |
| `AggregateBuffer.AggregateWriteBuffer.CopyFrom` | cache/aggregate_write_buffer.go:295-308 | the bytes at an offset that are still in one of the two buffers; `RingProgress.MemoryIsFutureDisk` says which bytes these are |
| `StripeWorker.StripeState.Begin` | cache/stripe.go:220-237 | the locked section before the write is the ring's start step: bounds, removal of the reused phase, region in flight |
| `StripeWorker.StripeState.WriteAt` | cache/stripe.go:193-199 | the write changes only the region in flight, byte by byte, and fills it when it does not stop short |
| `StripeWorker.StripeState.End` | cache/stripe.go:239-249 | the locked section after the write is the ring's finish step, for success and for failure |
| `StripeWorker.StripeState.CheckAllocation` | cache/stripe.go:280-288 | decides validity of an allocation; `RingProgress.AllocationValidExactly` says when it holds |
| `StripeWorker.StripeState.CheckEntry` | cache/stripe.go:289-301 | decides validity of a directory entry; `RingProgress.EntryValidExactly` says when it holds |
| `DirectoryIndex.Directory.Set` | cache/dir_manager.go:225-288 | stores over whole histories: never fails with at least 1366 buckets (1365 in buckets other than the first, and in the first while it is in order), puts no tag in disorder, and is recorded with the buckets it purged, which are none unless the tag is new, the bucket in use and the free list empty |
| `DirectoryIndex.Directory.Get` | cache/dir_manager.go:175-187 | over any history, hits exactly when the last surviving store for bucket and tag is this key's, and returns that entry: in every bucket but the first always, in the first under every tag that no back link has put in disorder |
| `DirectoryIndex.Directory.Delete` | cache/dir_manager.go:290-307 | under the same condition removes this key's survivor, and never any other; at most the two tags that its back link reaches come into disorder |
| `DirectoryIndex.Directory.DeleteAt` | cache/dir_manager.go:616-634 | under the same condition deletes only at the expected offset and says whether the key is gone; no other survivor goes, and at most the two tags that its back link reaches come into disorder |
| `DirectoryIndex.Directory.RemovePhase` | cache/dir_manager.go:636-662 | leaves exactly the entries of the other phase, in order, in every bucket but the first, in every state; the new table, the survivors and the tags in disorder are stated for the first, too |
| `DirectorySweep.NoneLeftExactly` | cache/dir_manager.go:636-662 | in every segment, a sweep leaves no entry of the phase if and only if it is not so that no cell is free, bucket 0 has entries but none of the phase, and the first cell that a later bucket gives back spells the phase |
| `DirectorySweep.SweepSparesExactly` | cache/dir_manager.go:636-662 | a sweep takes from bucket 0 its entries of the phase and does nothing else to it if and only if a condition on the segment before it holds; for a bucket 0 without repeated tags |
| `DirectorySweep.SweepLeavesEntry` | cache/dir_manager.go:636-662 | a full segment in which the sweep turns an entry it has passed into one of the phase that is swept |
| `DirectoryIndex.NewTagFits` | cache/dir_manager.go:363-398 | pigeonhole: a chain with distinct 12-bit tags cannot hold every cell that is no head |
| `DirectoryIndex.BackLinkLosesEntry` | cache/dir_manager.go:308-343 | a concrete segment in which the deletion of one tag loses another, because the back link is written over the head of bucket 0 |
| `DirectoryIndex.BackLinkFlipsPhase` | cache/dir_manager.go:308-343 | a concrete segment in which the deletion of one tag changes the phase bit of another entry, which is still found |
| `DirectoryIndex.DeleteOnlyRemovesExactly` | cache/dir_manager.go:308-343 | in every segment: a deletion removes its entry and does nothing else if and only if the tag is not found, or alone in its bucket, or the free list is not empty, or bucket 0 is empty afterwards, or its head already spells the released index |
| `DirectoryIndex.DeleteLeavesOthersExactly` | cache/dir_manager.go:308-343 | under the same condition, and no other, every lookup under another bucket or tag is as before; for a bucket 0 without repeated tags |
| `DirectoryIndex.RepeatedTagHidesChange` | cache/dir_manager.go:308-343 | a concrete segment with a repeated tag in which no other lookup sees the change, so that the restriction is needed |
| `DirectoryIndex.LayoutFits` | cache/dir_manager.go:41-46 | indices fit 16 bits, all buckets are there, and large directories have segments in which no store fails |
| `DirectorySegment.Segment.constructor` | cache/dir_manager.go:70-127 | an empty segment with all non-head cells on a doubly linked free list |
| `DirectorySegment.Segment.Probe` | cache/dir_manager.go:200-223 | finds the first entry of the chain with the tag, and its predecessor |
| `DirectorySegment.Segment.Set` | cache/dir_manager.go:247-288 | replaces or appends in its bucket; other buckets stay, or are purged as a whole if the tag is new, the bucket in use and the free list empty; fails exactly when the chain holds every usable cell |
| `DirectorySegment.Segment.DirDelete` | cache/dir_manager.go:308-343 | the new table and free list: drops the first entry with the tag and gives back one cell; the effect of the back link is stated exactly |
| `DirectorySegment.Segment.FreeChainDelete` | cache/dir_manager.go:130-157 | unlinks any cell of the free list |
| `DirectorySegment.Segment.FreeChainSet` | cache/dir_manager.go:159-170 | pushes a cell; with an empty list it writes the back link into cell 0 |
| `DirectorySegment.Segment.FreeChainPop` | cache/dir_manager.go:363-398 | gives a free non-head cell and keeps the protected bucket; fails exactly when that bucket's chain holds them all |
| `DirectorySegment.Segment.FreeChainRebuild` | cache/dir_manager.go:400-431 | relinks exactly the empty non-head cells |
| `DirectorySegment.Segment.PurgeBucket` | cache/dir_manager.go:433-462 | clears every cell of one chain |
| `DirectorySegment.Segment.PurgeRandom10` | cache/dir_manager.go:433-462 | empties some buckets, never the protected one, and leaves the others alone |
| `DirectorySegment.Segment.PurgeRandom100` | cache/dir_manager.go:493-518 | empties every bucket but the protected one |
| `DirectorySegment.Segment.GetFreeDir` | cache/dir_manager.go:345-361 | the head of an empty bucket, or a cell from the free list |
| `DirectorySegment.Segment.Get` | cache/dir_manager.go:175-187 | the entry of the tag if its identity is unknown or the key's |
| `DirectorySegment.Segment.DeleteAt` | cache/dir_manager.go:616-634 | deletes only if the entry is at the expected offset |
| `DirectorySegment.Segment.RemovePhaseFromBucket` | cache/dir_manager.go:640-661 | the new table exactly: the entries of one phase go from a chain, in order, and the first cell that is given back to an empty free list writes its back link over the head of bucket 0 |
| `DirectorySegment.Segment.RemovePhase` | cache/dir_manager.go:636-662 | the new table exactly, for every bucket |
| `DirectoryView.TableIsMap` | cache/dir_manager.go:175-343 | the table after any sequence of operations looks up the last surviving store, for every tag in every bucket but the first, and in the first for every tag that no back link has put in disorder |
| `DirectoryView.ClobberReach` | cache/dir_manager.go:159-170 | a back link changes no lookup except under the head's old tag and the tag it spells |
| `DirectoryView.ClobberMisleadsExactly` | cache/dir_manager.go:159-170 | from a bucket 0 in order, a back link leaves every lookup with its survivor if and only if it changes nothing |
| `DirectoryView.SweepIsRemoval` | cache/dir_manager.go:640-661 | under a tag that is not there twice a sweep takes the entry exactly if it has the phase |
| `DirectoryView.PutIsUpdate` | cache/dir_manager.go:247-288 | storing in a bucket is a map update and keeps tags distinct |
| `DirectoryView.DropIsRemoval` | cache/dir_manager.go:308-343 | dropping is a map removal and keeps tags distinct |
| `DirectoryView.TagsBound` | cache/dir_manager.go:363-398 | a chain with distinct tags that lacks one has at most 4095 entries |
| `DirectoryCheck.ValidateDirectory` | cache/dir_manager.go:539-576 | accepts exactly the segments whose cells are disjoint acyclic chains and a correctly linked free list of the empty non-head cells |
| `DirectoryCheck.Unmarshal` | cache/dir_manager.go:578-607 | the loop that reads a segment back, or nothing unless it is well-formed |
| `DirectoryCheck.CellsReadBack` | cache/dir_manager.go:521-537 | reading the stored form gives the cells back |
| `DirectoryCheck.StoredSegmentReadsBack` | cache/dir_manager.go:521-607 | restoring the stored form of any segment in order gives back its cells and free list |
| `DirectoryCheck.ValidSegmentReadsBack` | cache/dir_manager.go:521-607 | so it does for every segment that the operations can reach |
| `DirEntry.FreshTag` | cache/dir.go:121-151 | tag, phase and head of a freshly built entry read back |
| `DirEntry.FreshSize` | cache/dir.go:61-95 | the offset reads back exactly if it fits 40 bits; the size is rounded up to the next class, by less than 256 KiB |
| `DirEntry.BackLinkReplacesTag` | cache/dir.go:97-104 | the back link overwrites tag and phase of the cell it is written to |
| `DirEntry.BytesReadBack` | cache/dir.go:43-59 | the ten bytes of a cell read back |
| `DirEntry.UnpackAgrees` | cache/dir.go:61-182 | the record form of a cell agrees with its packed words on tag, phase, both links and their setters |
| `FragmentRoundTrip.RoundTrip` | cache/cache_write.go:239-392 | for all write sizes and all read buffer sizes: after a successful close, whatever happened while writing, an undisturbed read returns the written bytes and then the end; the close succeeds if nobody refuses or disturbs the writer and the object fits |
| `FragmentRoundTrip.ReadObject` | cache/cache_read.go:143-249 | a committed object that nobody disturbs from now on is read back, and the read after its last byte reports the end |
| `FragmentWriter.Writer.Close` | cache/cache_write.go:315-392 | success means that every fragment of the object, with fragment 0 last, is in the directory as this writer stored it |
| `FragmentWriter.Writer.Write` | cache/cache_write.go:239-277 | the stream grows by the bytes accepted, one fragment at a time; any failure closes the writer |
| `FragmentWriter.Writer.ProcessBuffer` | cache/cache_write.go:280-311 | full buffers become fragments; the first is held back |
| `FragmentWriter.Writer.WriteFragment` | cache/cache_write.go:395-494 | adds, flushes and publishes a fragment; fragment 0 only over a directory that still holds all the others |
| `FragmentWriter.Writer.Abort` | cache/cache_write.go:206-235 | removes exactly those entries that are still this writer's own |
| `FragmentWriter.Writer.ReadAt` | cache/cache_write.go:83-151 | in every writer state the bytes are the slice of the stream, as many as were asked for or as the fragment has left; `OnDisk`, end, not yet and failure exactly when |
| `FragmentWriter.HeadCommits` | cache/cache_write.go:465-484 | with all later fragments in place, publishing fragment 0 commits the object |
| `FragmentReader.Reader.Read` | cache/cache_read.go:143-249 | whatever others do between loads, the bytes are the next bytes of the one object the reader began; an error is terminal; end of file exactly at its end |
| `FragmentReader.Reader.LoadFragment` | cache/cache_read.go:253-400 | loads and checks one fragment; a passing fragment is exactly its piece of the object |
| `FragmentReader.Reader.ReadAll` | cache/cache_read.go:143-249 | any sequence of buffers yields a prefix of one object; undisturbed, its length is the buffers' total or the object |
| `FragmentRoundTrip.TailingReader.Read` | cache/cache_read.go:404-481 | one round of the reading loop: the next bytes of the stream, exactly as many as asked for or as the fragment has left, whenever they are in memory or their fragment is in the directory; the end exactly at the end of a closed stream, waiting exactly at the end of an open one; an empty buffer changes nothing and asks for another round |
| `FragmentRoundTrip.TailingReader.Follow` | cache/cache_read.go:404-481 | a reader with any buffer follows an undisturbed open writer to the last byte it has taken, and then has to wait |
| `FragmentRoundTrip.TailingReader.AloneIsReachable` | cache/cache_write.go:108-143 | every byte taken by an undisturbed open writer is in its memory or in a fragment in the directory |
| `FragmentRoundTrip.TailingReader.ReadRounds` | cache/cache_read.go:404-481 | the loop ends after one round for any buffer but an empty one, for which it never ends |
| `FragmentRoundTrip.TailingReader.ReadStored` | cache/cache_read.go:429-465 | the disk path returns the same slice, and is not empty while the writer's fragment is in the directory |
| `Fragments.PassingIsPiece` | cache/cache_read.go:363-381 | a fragment of the right write that passes the chain checks holds exactly its piece |
| `Fragments.FragmentsPass` | cache/cache_read.go:363-381 | every fragment of an object passes every chain check |
| `Fragments.ChecksAcceptExactly` | cache/cache_read.go:363-381 | whatever is on the disk, the chain checks accept a fragment if and only if some object of that length has it at that place, as far as the data area reaches |
| `Fragments.PiecesAreAll` | cache/cache_write.go:261-311 | the pieces of an object put together are the object |
| `Fragments.StoredBelongs` | cache/cache_write.go:407-421 | what a writer stores belongs to everything it will have written in the end |
| `Fragments.FragmentReadsBack` | cache/cache_write.go:395-442 | the stored bytes of a fragment are accepted and give back keys, length, version, metadata and body |
| `Doc.HeaderReadsBack` | cache/doc.go:71-84 | decoding the 72-byte header undoes encoding, whatever follows |
| `Doc.HeaderWritesBack` | cache/doc.go:71-84 | encoding undoes decoding: no byte of the header is lost |
| `Doc.SealedIsAccepted` | cache/doc.go:47-69 | a document with its checksum passes validation, also in a longer buffer |
| `Doc.AcceptsExactly` | cache/doc.go:47-69 | a buffer passes validation if and only if it begins with a document that a writer could have sealed: magic, version, lengths within their limits, and checksum |
| `Doc.ChangesAreDetected` | cache/doc.go:47-69 | a buffer with the checksum of a document but another header or body is accepted only if two different byte strings have one checksum |
| `Doc.CoveredTellsApart` | cache/doc.go:47-69 | the bytes that the checksum covers determine header and body |
| `FragmentRefresh.UpdateInfo` | cache/http_update.go:248-370 | a metadata refresh of a committed object leaves it committed with the new metadata, the same body and version; if nobody touches the object and it fits, it succeeds if and only if every later fragment is still valid in its rounded size |
| `RefreshTails.RoomyExactly` | cache/http_update.go:354-358 | which intact fragments pass the check in the rounded size |
| `RefreshTails.NeverRoomy` | cache/http_update.go:354-358 | a fragment whose rounded end lies behind the data area is refused in every state |
| `RefreshTails.IntactTailIsRefused` | cache/http_update.go:354-358 | an intact fragment of 40000 bytes that is refused |
| `FragmentRefresh.RefreshKeepsObject` | cache/http_update.go:345-362 | publishing the new fragment 0 over unmoved entries changes the metadata and nothing else |
| `FragmentRefresh.RefreshedBelongs` | cache/http_update.go:322-330 | a refreshed fragment 0 belongs to the same write, so readers are not misled |
| `FragmentStore.CommittedStays` | cache/cache_read.go:285-315 | a committed object stays readable while nobody touches its keys |
| `FenceRuns.PurgeHolds` | cache/invalidation.go:152-188 | after a purge that found every readable object of a matching selector in the index, and whatever follows: no fill begun before it can publish on any stripe, the body of whatever is readable under a matching selector was stored by a fill begun after it, refreshed or not, and so is what a reader could follow unless its writer has failed |
| `FenceRuns.PurgeCleansExactly` | cache/invalidation.go:166-182 | a purge leaves no older object readable if and only if every readable object of a matching selector was in the index |
| `FenceRuns.PurgeHoldsFromStart` | cache/invalidation.go:152-188 | from a new cache on, a purge holds if no earlier swap put an entry back whose identity the index had dropped |
| `FenceReach.PurgeReachesFills` | cache/invalidation.go:152-188 | after a purge, and whatever follows, nothing is readable that a fill begun before it for the purged selector has stored, its range objects included, and none of its writers can be followed unless it has failed; with `prefix`, for every selector that begins with it |
| `FenceReach.EverythingIsTraced` | cache/invalidation.go:59-87 | in every run from a new cache, whatever is stored has the selector of the fill that stored it, or one that extends it by a range |
| `FenceRuns.IndexedExactly` | cache/stripe.go:357-361 | a step takes a readable object out of the index if and only if it puts an entry back whose key is not in the index |
| `FenceRuns.StrayEscapesPurge` | cache/stripe.go:357-361 | every such entry stays readable through a purge of its own selector |
| `FenceRuns.StrayRun` | cache/invalidation.go:210-228 | and it happens to any readable object: overwritten, dropped from a full index, put back by the evacuation, not reached by the purge |
| `FenceRuns.StrayRunIsReachable` | cache/invalidation.go:210-228 | the whole run on a new cache with one stripe, for any number of keys that fill its index |
| `FenceRuns.InvalidationHolds` | cache/http_update.go:185-243 | after an invalidation no earlier fill of a selector in the same policy slot can publish, whatever follows |
| `FenceRuns.DerivedKeepsFence` | cache/invalidation.go:65-87 | a derived token keeps the epoch and policy fence of its parent across any number of wraps |
| `FenceRuns.NewerHeadSurvives` | cache/http_update.go:203-236 | an invalidation leaves every head that was published after its token was taken, begun or derived |
| `FenceRuns.ReplaceFindsSnapshot` | cache/http_update.go:81-103 | a replacing writer, of a fill or of a range object, is admitted, after any run, only if every representation of the selector is the one in its token and no writer is at work |
| `FenceProgress.ReplaceRemovesOwn` | cache/http_update.go:146-156 | what a replacing writer removes is indexed under its own selector |
| `FenceProgress.WrapEndsReplacing` | cache/http_update.go:81-103 | once a stripe has wrapped, no token from before passes the check for replacing or refreshing, whatever follows |
| `FenceProgress.AbortForgetsOwn` | cache/cache_write.go:226-228 | a failing writer takes its own identity out of the index and nothing else; one that has lost its key changes nothing |
| `FenceRuns.PublisherIsLive` | cache/cache_write.go:459-464 | only a fill that no purge and no invalidation has overtaken can publish |
| `FenceProgress.PublishesExactly` | cache/cache_write.go:459-464 | from the moment a writer has claimed its key, after any run: it can publish if and only if it is not done, the key is still its own, and no purge, no shutdown of its stripe and no invalidation in a policy slot of its fill came in between |
| `FenceProgress.TokenGoodExactly` | cache/http_update.go:61-79 | after any run a token passes the check of its epochs if and only if no purge, no shutdown and no invalidation in a policy slot of its own or of its parent came since it was begun or derived |
| `FenceProgress.StepOvertakesExactly` | cache/invalidation.go:152-188 | which steps overtake a fill, and that no other does |
| `FenceProgress.OpenedIsGood` | cache/invalidation.go:98-125 | a writer that has just claimed its key can publish, for begun and derived tokens |
| `FenceProgress.TokensStartGood` | cache/invalidation.go:30-87 | a token that has just been begun, or derived from a good one, passes every check |
| `FenceRuns.StepKeeps` | cache/invalidation.go:30-251 | every step keeps: entries agree with the index where they are indexed, a claimed key is indexed and has no entry, tokens are never ahead of the stripes |
| `FenceRuns.FreshInv` | cache/open_dir.go:50-54 | a cache without fills satisfies the invariant, and everything readable is indexed |
| `FenceRuns.HeadOrigin` | cache/cache_write.go:476-492 | a head is there because it was there before, because a live fill stored it, because a live fill refreshed an entry in the index, which keeps its body, or because the evacuation put back one that was lost since the last purge |
| `FenceCache.Cache.BeginFill` | cache/invalidation.go:30-55 | the token records epoch, policy and wraps of every stripe and the snapshot; every failure case |
| `FenceCache.TokenRemembers` | cache/invalidation.go:30-55 | what a token remembers of every stripe: epoch, wraps, the policy epoch of its slot, and entry and writer of every key under the selector or as a range manifest below it |
| `FenceCache.Cache.DeriveFill` | cache/invalidation.go:59-87 | derived tokens exist exactly for range keys below a current root |
| `FenceCache.DerivedRemembers` | cache/invalidation.go:65-87 | what a derived token remembers: the epochs and policies of its parent, and entry and writer of its own key |
| `FenceCache.Cache.CheckFillEpochs` | cache/http_update.go:61-79 | decides whether any epoch has moved on any stripe, for the token and its parent |
| `FenceCache.Cache.CheckFill` | cache/http_update.go:81-103 | decides whether anything of the selector has changed |
| `FenceCache.Cache.OpenWriteFillKey` | cache/invalidation.go:98-125 | claims the key exactly when it is free, the token current on its stripe and the index has room; a claim that fails on a full index has dropped the identities without head and writer, any other changes nothing |
| `FenceCache.Cache.OpenReplacing` | cache/http_update.go:137-181 | claims only over an unchanged snapshot without writers and removes exactly the listed others; a refusal as above |
| `FenceCache.ClaimsAreSteps` | cache/http_update.go:137-181 | both ways to claim a key are admitted if and only if the step of that name is possible, the identity sound, and a key to be replaced by itself belongs to the selector |
| `FenceCache.Cache.PublishHead` | cache/cache_write.go:459-492 | publishes exactly when nothing has overtaken the writer and the key is its own |
| `FenceCache.Cache.PurgeSelector` | cache/invalidation.go:152-188 | on every stripe a key indexed under the selector itself or under one that begins with it and `\nrange:` (with `prefix`: under any that begins with it) is gone from index, entries and claims and is listed in the result; every other key is as it was; the loop is the purge step |
| `FenceCache.Cache.InvalidateFill` | cache/http_update.go:185-243 | the loop is the invalidation step; gone are exactly the keys whose intact entry the token knows, and those without entry that it knows or that are being written, every other key is as it was, and the epoch of one policy slot has moved on |
| `FenceCache.Cache.FillSnapshot` | cache/http_update.go:19-32 | the selector's keys on all stripes, unless there are more than 64 |
| `FenceCache.Cache.RangeSnapshot` | cache/http_update.go:34-48 | the same for range manifests |
| `IdentityIndex.DirTrie.SetIdentity` | cache/dir_trie.go:48-73 | binds a key exactly when lengths, entry count and byte total allow; keeps the two indexes exact inverses and the total exact |
| `IdentityIndex.DirTrie.DeleteLocked` | cache/dir_trie.go:124-133 | forgets a key in both indexes and its bytes |
| `IdentityIndex.DirTrie.KeysForPrefixLimit` | cache/dir_trie.go:80-96 | exactly the keys whose selector has the prefix, unless more than the limit |
| `IdentityIndex.DirTrie.KeysForSelectorLimit` | cache/dir_trie.go:103-116 | exactly the keys of the selector, unless more than the limit |
| `IdentityIndex.DirTrie.Get` | cache/dir_trie.go:75-78 | the entry limit makes the prefix lookup complete |
| `IdentityIndex.DirTrie.KeysForSelector` | cache/dir_trie.go:98-101 | the entry limit makes the selector lookup complete |
| `IdentityIndex.DirTrie.Snapshot` | cache/dir_trie.go:135-144 | lists every entry once |
| `IdentityIndex.DirTrie.Restore` | cache/dir_trie.go:147-161 | replaces the index exactly when the whole list is admissible, and otherwise changes nothing |
| `IdentityIndex.SaveAndRestore` | cache/dir_trie.go:135-161 | what a snapshot lists can be restored |
| `IdentityIndex.BytesWithout` | cache/dir_trie.go:124-128 | the byte total does not depend on the order of entries |
| `OpenDir.OpenDir.Add` | cache/open_dir.go:64-77 | one claim per key at a time |
| `OpenDir.OpenDir.Acquire` | cache/open_dir.go:108-118 | a reader joins the claim and is counted |
| `OpenDir.OpenDir.Release` | cache/open_dir.go:121-134 | the last holder ends the claim, but never a claim made since |
| `OpenDir.OpenDir.Detach` | cache/open_dir.go:141-156 | ends a claim that is still held |
| `S3Fifo.Cache.Put` | cache/ram_s3fifo.go:125-152 | keeps map, queues, counters and all bounds; a key evicted lately goes to the back of the main queue and one not known to the back of the small queue, with no use counted; a resident one is renewed in place; evictions form a chain of which each was necessary, and with room nothing goes |
| `S3Fifo.Cache.Get` | cache/ram_s3fifo.go:44-54 | a hit is exactly a resident key, returns the value stored last and raises its count to the smaller of three and one more; value, charge, segment, queues and every other entry are unchanged |
| `S3Fifo.UsedTwiceStays` | cache/ram_s3fifo.go:108-123 | over every run: an entry of the small queue asked for or stored again at least twice since it was stored survives an eviction from that queue, in the main queue if the scan came to it; what moves on was used twice and what is evicted was not |
| `S3Fifo.StoredInPlace` | cache/ram_s3fifo.go:129-137 | a store over a resident key starts from the new value in place, one use more, up to three, and the charges corrected |
| `S3Fifo.Cache.Evict` | cache/ram_s3fifo.go:91-124 | which entry goes, in closed form, from either queue; terminates with fewer residents or a shorter small queue |
| `S3Fifo.Cache.EvictMain` | cache/ram_s3fifo.go:93-107 | the scan evicts the first entry of least use; every other entry's uses and the new order are stated |
| `S3Fifo.Cache.EvictSmall` | cache/ram_s3fifo.go:108-123 | entries used twice move to the main queue in order, their uses counted anew; the first other becomes a ghost; every other entry is unchanged |
| `S3Fifo.Cache.TrimGhost` | cache/ram_s3fifo.go:86-90 | forgets exactly as many of the oldest ghosts as must go for all three bounds to hold, and nothing else |
| `S3Fifo.Cache.MakeRoom` | cache/ram_s3fifo.go:137-150 | both eviction loops of a store: a chain of evictions, each because there was no room and each of the policy's victim alone, up to the first state with room |
| `S3Fifo.Cache.Replace` | cache/ram_s3fifo.go:129-137 | a new value in place, one use more, up to three, the same segment, and every other entry unchanged; all counters follow |
| `S3Fifo.Cache.Unlink` | cache/ram_s3fifo.go:55-69 | leaves its queue, the map and the counters of its segment; no counter underflows |
| `S3Fifo.Cache.Append` | cache/ram_s3fifo.go:70-85 | joins the back of its queue, the map and the counters |
| `S3Fifo.Cache.Remove` | cache/ram_s3fifo.go:153-159 | forgets a key, resident or ghost |
| `S3Fifo.ScanStep` | cache/ram_s3fifo.go:94-99 | one turn of the scan in terms of full rounds and position |
| `S3Fifo.UnlinkMove` | cache/ram_s3fifo.go:55-69 | unlinking keeps map and queues in step and every counter the sum over its queue |
| `S3Fifo.AppendMove` | cache/ram_s3fifo.go:70-85 | so does appending |
| `S3Fifo.RotateMove` | cache/ram_s3fifo.go:96-98 | a turn keeps them too and lowers the total of uses: the scan ends |
| `S3Fifo.Enough` | cache/ram_s3fifo.go:57-67 | no counter is smaller than what is subtracted from it |
| `S3Fifo.CountersAreContents` | cache/ram_s3fifo.go:55-85 | the byte counters are the bytes and the charges of what can be looked up, and of nothing else |
| `RamCache.Ram.Get` | cache/ram_cache.go:56-72 | a hit returns the bytes stored last under the key and not forgotten since |
| `RamCache.Ram.Put` | cache/ram_cache.go:73-90 | the requests are recorded; an admitted entry is stored after necessary evictions only, and if it has a place everything else is kept; a key that was not held is held afterwards if and only if it is short enough and its charge fits the capacity; a refused one is forgotten |
| `RamCache.Ram.Delete` | cache/ram_cache.go:91-97 | forgets exactly the key |
| `RamCache.NewRamEntry` | cache/ram_metadata.go:12-38 | the charge is the number of bytes, at least one, plus the decoded headers if the total fits 32 bits |
| `FillGroup.Group.Join` | server/fill_group.go:81-112 | answer and new state: joins the running task, creates one only if there is none to be joined, or refuses for exactly the stated reasons; counters stay exact, limits hold, a task that everybody left is never joined |
| `FillGroup.RequestsCoalesce` | server/fill_group.go:81-112 | over any run of requests, departures, expiries and outcomes: as long as the task of an admitted request is not cancelled and its token good, every later request for the object that is admitted shares it |
| `FillGroup.WaitersKeepTask` | server/fill_group.go:113-124 | over any run, a task that somebody still waits for is cancelled only by its time or its end, never by others that leave |
| `FillGroup.NextCancels` | server/fill_group.go:81-145 | which events cancel a task, and how many wait for it after each |
| `FillGroup.OutcomesAreCounted` | server/fill_group.go:125-145 | over any run each outcome is counted under its own name, once for every task that ended with it |
| `FillGroup.NextJoins` | server/fill_group.go:87-97 | a request counts as joined exactly if it was let into a running task |
| `FillGroup.Group.Expire` | server/fill_group.go:105-106 | a task whose time is up is cancelled and nothing else changes |
| `FillGroup.Group.Leave` | server/fill_group.go:113-124 | one waiter less; the task is cancelled exactly if it was before or nobody is left |
| `FillGroup.Group.Finish` | server/fill_group.go:125-145 | one outcome per task; a task that replaced the finished one stays |
| `FillGroup.FinishKeeps` | server/fill_group.go:125-145 | tasks created equal active plus the four outcome counters |
| `RangeBlocks.BoundsAreSelected` | server/range_cache.go:286-323 | a range in any decimal notation is accepted if and only if it is valid, selects a byte and writes no number above 64 signed bits, and the bounds enclose exactly the bytes that section 14.1.2 of RFC 9110 selects |
| `RangeBlocks.LargeRangeIsRefused` | server/range_cache.go:295-304 | a header that is valid and selects every byte, but is refused because its last position exceeds 64 bits |
| `RangeBlocks.BoundsAreInside` | server/range_cache.go:754-759 | for every header, accepted bounds lie inside the object |
| `RangeBlocks.FullIsEverything` | server/range_cache.go:754-759 | a full response encloses exactly the bytes of the object; any other goes by its header |
| `RangeBlocks.ServeBlocks` | server/range_cache.go:676-730 | the block slices are the bytes of the range without gap or overlap; an early end leaves a prefix; complete exactly when every block was fetched |
| `RangeBlocks.NextPart` | server/range_cache.go:715-724 | the slice of one block continues the response |
| `RangeBlocks.RangeFits` | server/range_cache.go:490-504 | decides whether the current and the next block fit their stripes, together where they share one |
| `StripeLayout.BuildStripeLayout` | cache/store.go:39-151 | success gives exactly `n` non-empty chunks in which every byte of every span occurs once; it fails if and only if the request makes no sense or a span has fewer bytes than the stripes its share gives it, in closed form |
| `StripeLayout.Allot` | cache/store.go:63-112 | shares in closed form: in proportion, at least one each, exactly `n` together, evened out at the largest span or from the front; the branch that drops a span is unreachable |
| `StripeLayout.PortionIsInProportion` | cache/store.go:63-72 | a share is the whole number of stripes that the span's part of the total allows, or one if that is none |
| `StripeLayout.LaySpan` | cache/store.go:120-142 | a span is tiled from 0 to its size |
| `StripeLayout.AddChunk` | cache/store.go:135-138 | a chunk at the running offset extends the tiling |
| `Policy.AdvancingAgrees` | server/cache_policy.go:216-222 | moving a policy on gives the same saturated age as reading it again |
| `Policy.AgeIsStandard` | server/cache_policy.go:126-152 | the age is the one of section 4.2.3 of RFC 9111, held inside 64 bits |
| `Policy.FreshFromFields` | server/cache_policy.go:92-197 | from the fields of request and response: a stored response is used if and only if nothing forbids it, the clock has not gone back, neither side asks for validation, and the age of RFC 9111 is below the shared lifetime, at most `max-age` and more than `min-fresh` away from the end |
| `Policy.LifetimeFromFields` | server/cache_policy.go:113-124 | the lifetime is that of `s-maxage`, or of `max-age` if the response is `public`, or there is none |
| `Policy.AgeIsRead` | server/cache_policy.go:126-134 | no Age field is zero seconds; more than one, or one that is not a number that fits, refuses the response |
| `Policy.StaleStaysStale` | server/cache_policy.go:162-197 | once a response has arrived, being stale for a request is final |
| `Policy.NotFreshBeforeArrival` | server/cache_policy.go:135-139 | before its arrival time no response is fresh |
| `Policy.StalenessIsFinalExactly` | server/cache_policy.go:135-197 | being stale is final if and only if the response has arrived or is stale on arrival |
| `Policy.StaleThenFresh` | server/cache_policy.go:135-197 | a response that is stale just before its arrival time and fresh at it |
| `Policy.EarlierPolicyDecides` | server/cache_policy.go:168-197 | a policy read earlier answers a request as one read now |
| `Policy.ResponsePolicy` | server/cache_policy.go:92-153 | reads lifetime, validation flag and age, with every refusal |
| `Policy.CacheDirectives` | server/cache_policy.go:45-73 | the directives by name exactly if none is repeated or unsupported; numeric ones are numbers |
| `Policy.SupportedExactly` | server/cache_policy.go:54-70 | the directives that are understood, by name: numbers up to 9223372036 seconds, quoted or not, and names that stand alone |
| `Policy.TableGives` | server/cache_policy.go:45-73 | a numeric directive is found under its name with the number it was given |
| `Policy.TableIs` | server/cache_policy.go:45-73 | each directive has the value it was given, in any order |

## Left out

- Files, fsync, locks between processes, checkpoints and recovery after a restart: the disk is a byte sequence with a region in flight.
- The Otter memory policy, HTTP transport, proxying, balancing, configuration, statistics and logging.
- Timers and wake-ups: a wait is a step that may fail; that a waiter is woken is not stated.
- Callbacks of writers after a flush (`OnLogFlush`) and the list of pending writers.
- The directory as several segments: one segment is modelled, and a key's segment, bucket and tag are parameters.
- `setHead(false)`, `setPinned` and setting the size of a used entry, which do not behave as field updates; entries are built as in `Set`.
- The limit on the number of fragments that a metadata refresh and a removal look at.
- Collection of evacuation candidates: only the swap at the end is modelled, on the ring and on the fences.
- Order of the keys that the identity index returns: they are sets here.
- Splitting header lines into directives and trimming blanks: directives arrive as names and values.
- Fetching of range blocks and manifests, and their prefetching: a block arrives or fails.
- `responseBufferPool`, `budget.Limiter` and the balancers.
- RingSafety.PhaseBitSound: requires that no allocation two generations older than a write in flight is published during that write and that no back link changes a phase bit; `LatePublication` states what happens otherwise.
- FenceRuns.PurgeHolds: requires that what is readable under a matching selector is in the index; `PurgeCleansExactly` shows that this is the exact condition.
- RingSafety.EvacuationKeepsContents: requires that the entry was current when it was copied; `SnapshotIsCurrent` covers the others, and `LatePassesForSnapshot` shows how they fail.
- DirectoryIndex.Directory.Get: says nothing of tags of bucket 0 that a back link has put in disorder; `DirectoryView.ClobberMisleadsExactly` shows that it cannot.
- DirectorySweep.SweepSparesExactly: for a bucket 0 without repeated tags; `NoneLeftExactly` has no such condition.
- DirectoryIndex.DeleteLeavesOthersExactly: for a bucket 0 without repeated tags, which holds until a back link has hit an entry; `DeleteOnlyRemovesExactly` has no such condition.
- FenceCache.Cache.OpenWriteFillKey: whether the identity index is full, and has room after it is trimmed, are parameters; `IdentityIndex` states when it has.
- FragmentWriter.Writer.WriteFragment: epochs, cancellation and a failing identity entry appear as one refusal by the schedule, before the publication; `FenceRuns` states when a publication is refused.
- FragmentRefresh.UpdateInfo: the checks of token and generation appear as one refusal by the schedule, the refresh step of `Fences` has them; whether a fragment is valid in its rounded size is a parameter, and `RefreshTails` states when it is.
- FillGroup.Group.Join: whether the tokens are current is a parameter.
