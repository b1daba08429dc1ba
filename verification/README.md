# Verified models of the Engram row store, its kernels and its build tooling

This project models, in Dafny 4.11, the parts of the repository whose correctness is hardest to see by
reading: two thread-pool protocols, a concurrent row cache over immutable files, the index arithmetic of
interleaved key-value shards, a fast Hadamard rotation, a three-level argmax, and the tools that patch
source trees and filter tags. `dafny verify dfyconfig.toml` checks everything.

## What is modelled

* **Row store** (`RowFile`, `PackedShard`, `RowCache`, `RankRanges`, `RowStore`). The store object with its
  fields, locked lookup and insertion, the three miss paths, range selection, scale pinning, the packed
  shard writer and its attachment. Methods work on arrays; the cache is also a value, whose properties
  (exact rows, in the right set, for every geometry) the methods keep.
* **Worker pool** (`RowPool`, `PoolSafety`, `PoolTheorems`). `Pool::run`, `drain`, `loop`, `serve` and
  `fetch_row` as interleaved atomic steps: one caller (callers are serialized by a mutex), any number of
  workers, outside threads that serve small lookups directly, spurious wakeups, failing reads, and aborts. A job records
  who drew which ticket and how often each index was written.
* **Disk table** (`ReadPool`, `ReadPoolSafety`, `ReadPoolTheorems`, `DiskTable`). The permit, claim-counter
  and done-event pool as a second machine, with reads of any length and exceptions in workers and in the
  caller's slice; the row file, aligned reads and the gather, compared with the in-memory reference. Decoding
  of values is a parameter.
* **Rotations** (`Bits`, `Hadamard`, `Rotations`). The exchange network for any power of two over the
  reals, then the four-component, 32-lane kernel as its instance at 128.
* **Argmax** (`Argmax`). Blocks, shards and ranks, with NaN, -inf and the float32 carry of indices.
* **Context-parallel shards** (`Striping`, `IndexerPrefill`, `Ckv`). Token ownership, per-rank causal
  metadata, page tables, and the compaction of selected ids to addresses in the gathered buffer.
* **Patch engine** (`Replace`, `PatchEngine`, `PatchTheorems`). Anchored replacement on bytes, the tree of
  files with its helper, and apply, revert and check.
* **Smaller machines** (`BuildTags`, `Overlap`, `TensorPad`, `TensorLoad`, `GcGate`).

`Common` and `Arith` hold shared helpers.

## Where the code does less than it says

* `row_store_range` refuses to move the range under pinned scales, but a packed shard is addressed from
  the same lower bound and the guard does not look at it, and its file may be longer than its rows.
  `RowStore.MoveIsSafeExactly` says when a move is harmless: the lower bound stays and the upper one does not
  grow, or nothing is owned afterwards. `RowStore.MoveServesWrongRow` and `RowStore.GrownRangeServesTail` make
  the failing calls.
* The disk table drops the count its reads return. A row is right, whatever its buffer held, exactly if the
  read reached its end (`ReadPool.WholeExactly`, `DiskTable.AlignedReadExactly`); into zeros, also if what is
  missing is zeros (`DiskTable.BufferedReadExactly`). A shorter read is returned as data
  (`ReadPoolTheorems.ShortReadLosesRow`, `DiskTable.ShortReadIsServed`).
* `_ReadPool.run` joins its helpers only when the caller's own slice returns. If that slice raises while
  helpers are out, a late tally can end the next gather early, which then misses rows without an error. This
  happens from every such state (`ReadPoolTheorems.RaiseAlwaysLoses`) and from no other
  (`ReadPoolTheorems.RaiseIsSafeExactly`).
* Writer and reader comment the shard's magic as DSV41EN1; both use a number that spells DSV1EN41
  (`PackedShard.MagicLetters`).
* The split argmax is the flat argmax except for a row of nothing but -inf behind an empty rank 0
  (`Argmax.ReductionIsArgmaxExactly`, `Argmax.EmptyRankTakesTie`).
* Reversing a replacement whose new text overlaps itself can succeed with wrong bytes
  (`Replace.OverlapLosesBytes`); only the digest comparison of the whole file catches it.
* Head padding shrinks a model with more than 128 heads per rank, and for group sizes that do not fill the
  chosen local head count it yields no fitting model (`TensorPad.PaddedFits`, `TensorPad.PaddingShrinks`) and
  need not be idempotent (`TensorPad.IdempotentExactly`, `TensorPad.PaddingNotIdempotent`).
* The layer's column loader decides by the checkpoint's type, and only for shards that do not start past the
  checkpoint, whether padded block scales become one; other float32 parameters keep zeros
  (`TensorLoad.ColumnLoadedExactly`, `TensorLoad.ScaleIsLost`, `TensorLoad.ScaleTypeIsLost`).
* A packed shard is attached by header and size, and the packing step keeps a file of the right size unread.
  Rows are not compared: the store is exact if and only if the shard was made from the same rows
  (`PackedShard.WrittenShardServes`), and a replaced checkpoint is served from the old shard
  (`RowStore.StaleShardServesOldRows`).
* The packing step drops the count its writes return, so a cut write loses bytes without an exception
  (`PackedShard.LongChunkLosesRows`). The file is then too short, which the size tests notice
  (`PackedShard.SizeTells`, `RowStore.PackedRowIsTableRow`).

## Model

| member | source | states |
|---|---|---|
| PoolTheorems.ReturnedJobsAreServed | ds41-sglang/upstream/adapter/row_store.cpp:179-249 | In every interleaving of the caller, any number of workers and outside lookups: a job whose `run` returned had legal ids, every position holds the owed row and was written exactly once; no thread ever touched another job's buffers; while no job runs nobody is inside `drain`. |
| PoolTheorems.ActiveMeansCurrent | ds41-sglang/upstream/adapter/row_store.cpp:215-249 | `active_` counts exactly the workers inside, `active_ > 0` implies `job_` is their job, and every thread inside drains the current job. |
| PoolTheorems.ResetsAreUnobserved | ds41-sglang/upstream/adapter/row_store.cpp:179-202 | When the next job may be published nobody is inside `drain`, and both counters are zero: tickets and `chunks_` are never reset under a reader. |
| PoolTheorems.CacheStaysExact | ds41-sglang/upstream/adapter/row_store.cpp:109-147 | Over every run, duplicate misses on one id included: each occupied slot holds its id's exact row in that id's set, and with no call mid-insertion hits plus misses equal the completed calls. |
| PoolTheorems.PastIsFinal | ds41-sglang/upstream/adapter/row_store.cpp:193-227 | The buffers of a job whose `run` returned stay as they were returned under every continuation, although a thread that still held the job would write into them. |
| PoolTheorems.StaleWriteSpoils | ds41-sglang/upstream/adapter/row_store.cpp:215-227 | That is no matter of bookkeeping: a thread at its copy with a returned job in hand changes that job's buffers. |
| PoolTheorems.ProgressShrinks | ds41-sglang/upstream/adapter/row_store.cpp:215-249 | Every waking, draining, locking or checking step strictly decreases one natural-number measure. |
| PoolTheorems.OthersCost | ds41-sglang/upstream/adapter/row_store.cpp:193-202 | Spurious wakeups of the caller raise that measure by at most two; all other remaining steps do not raise it. |
| PoolTheorems.WorkIsBounded | ds41-sglang/upstream/adapter/row_store.cpp:179-249 | Between two publications, under any schedule, the number of working steps is bounded by the measure plus twice the spurious wakeups. |
| PoolTheorems.NeverStuck | ds41-sglang/upstream/adapter/row_store.cpp:193-202 | While `run` has not returned some thread can step without waking a parked worker. |
| PoolTheorems.NoLostWakeup | ds41-sglang/upstream/adapter/row_store.cpp:194-200 | A caller asleep on `done_` is always owed a notification: some worker is still inside and will leave. |
| PoolTheorems.LastTicketWakes | ds41-sglang/upstream/adapter/row_store.cpp:222-225 | Whoever counts the last ticket down wakes a sleeping caller with its next step, also if workers are still inside. |
| PoolTheorems.AbortsOnIllegalIds | ds41-sglang/upstream/adapter/row_store.cpp:152-158 | Over every run the process aborts only if a read failed or some published id lies outside the table; ids of other ranks never abort it. |
| PoolTheorems.RunReturns | ds41-sglang/upstream/adapter/row_store.cpp:193-202 | From every reachable state there is a schedule in which no parked worker ever wakes and `run` returns; it ends in the abort only if the job that is out has an id outside the table. |
| PoolTheorems.FairRunReturns | ds41-sglang/upstream/adapter/row_store.cpp:179-249 | If no read fails and no published id lies outside the table, then under every endless schedule in which the threads that can step some time do and spurious wakeups stop some time, `run` returns, again and again, and the process is up. |
| PoolSafety.RunKeeps | ds41-sglang/upstream/adapter/row_store.cpp:179-249 | The pool invariant holds in every state of every interleaving. |
| PoolSafety.ApplyKeeps | ds41-sglang/upstream/adapter/row_store.cpp:179-249 | Each atomic step of caller, worker or outside thread keeps the invariant. |
| PoolSafety.QuietIsDone | ds41-sglang/upstream/adapter/row_store.cpp:197-200 | The predicate `run` waits for implies that every index of the job is served and nobody is inside. |
| PoolSafety.SomeoneInside | ds41-sglang/upstream/adapter/row_store.cpp:193-200 | If tickets are still open when the caller leaves `drain`, some worker is inside to finish and wake it. |
| PoolSafety.LeaveKeeps | ds41-sglang/upstream/adapter/row_store.cpp:244-248 | Decrementing `active_` and notifying under the mutex keeps the invariant, waking a sleeping caller. |
| PoolSafety.PublishKeeps | ds41-sglang/upstream/adapter/row_store.cpp:184-191 | Resetting counters and publishing the next job keeps the invariant. |
| RowPool.AdvanceExact | ds41-sglang/upstream/adapter/row_store.cpp:109-147 | Whatever other threads did to the cache between a call's three critical steps, its next step keeps the cache exact, carries the right row, balances the counters and counts a hit exactly if the lookup found the row. |
| RowCache.Shard.MissRowIsRow | ds41-sglang/upstream/adapter/row_store.cpp:123-137 | The packed shard, the weight read plus pinned scales, and the two direct reads give the same 264 bytes: the row of the checkpoint table. |
| RowCache.EmptyIsTransparent | ds41-sglang/upstream/adapter/row_store.cpp:339-351 | A zeroed cache of any geometry holds no wrong row. |
| RowCache.LookupIsRow | ds41-sglang/upstream/adapter/row_store.cpp:112-122 | A transparent cache answers with the backing row of the id asked for, or not at all. |
| RowCache.InsertTransparent | ds41-sglang/upstream/adapter/row_store.cpp:139-146 | Inserting an exact row keeps every slot exact, also if the id is already present (no re-scan). |
| RowCache.InsertFrame | ds41-sglang/upstream/adapter/row_store.cpp:141-145 | An insertion changes exactly the victim slot: its key and row; every other slot keeps both. |
| RowCache.InsertThenLookup | ds41-sglang/upstream/adapter/row_store.cpp:109-147 | A row just inserted is found, whole, by the next lookup. |
| RowCache.SetsCommute | ds41-sglang/upstream/adapter/row_store.cpp:110-113 | Insertions into different sets touch disjoint memory: either order gives the same cache, which is what striping the locks by set relies on. |
| RowCache.LookupElsewhere | ds41-sglang/upstream/adapter/row_store.cpp:110-121 | An insertion into one set does not change any lookup in another. |
| RowCache.KeptForARound | ds41-sglang/upstream/adapter/row_store.cpp:142-143 | Round robin: a cached row survives until its set has seen as many further insertions as it has ways. |
| RowCache.CursorAdvances | ds41-sglang/upstream/adapter/row_store.cpp:142-143 | The victim cursor names the overwritten way, stays below `ways` and advances cyclically by one. |
| RowFile.ReadFrom | ds41-sglang/upstream/adapter/row_store.cpp:88-102 | A page-aligned direct read, its start masked to the page, fits the 8192-byte buffer and yields exactly the requested bytes of the file; it aborts if and only if the read does not reach their end. Resident reads cannot fail. |
| RowFile.PageMask | ds41-sglang/upstream/adapter/row_store.cpp:94-95 | Masking with the page size minus one rounds an offset down to its page. |
| RowFile.PinScales | ds41-sglang/upstream/adapter/row_store.cpp:268-305 | Under arbitrary short positive reads the bounce-buffer loop copies exactly the scale rows of [lo, hi); with memory it fails only over a read that delivers nothing; an empty range pins nothing. |
| RowStore.Store.constructor | ds41-sglang/upstream/adapter/row_store.cpp:309-353 | A freshly opened store owns all rows, holds no wrong row and has the computed geometry. |
| RowStore.GeometryFits | ds41-sglang/upstream/adapter/row_store.cpp:339-350 | Rows, keys and cursors of the chosen sets and ways fit the byte budget, and those of one more set would not. |
| RowStore.Geometry | ds41-sglang/upstream/adapter/row_store.cpp:335-341 | The ways are the wanted ones clipped to 1..16; the sets are the most whose rows, keys and cursors fit the budget; RAM mode keeps no cache. |
| RowStore.Store.LookupLocked | ds41-sglang/upstream/adapter/row_store.cpp:112-122 | The locked scan returns what the specification lookup returns, counting hits and changing nothing else. |
| RowStore.Store.InsertLocked | ds41-sglang/upstream/adapter/row_store.cpp:139-146 | The locked insertion turns the cache into the specified one and keeps it exact. |
| RowStore.Store.ReadMiss | ds41-sglang/upstream/adapter/row_store.cpp:123-137 | A miss assembled on the configured path yields the row's bytes; it aborts if and only if one of that path's reads does not reach its end. |
| RowStore.Store.FetchRow | ds41-sglang/upstream/adapter/row_store.cpp:108-147 | A fetch completes if and only if the row is cached or its reads arrive; it then returns the exact table row, counts a hit if it was cached and a miss if not, leaves the cache alone on a hit and inserts the row on a miss. |
| RowStore.Store.RowFor | ds41-sglang/upstream/adapter/row_store.cpp:152-160 | One position: abort exactly for an id outside the table, or an owned, uncached row whose reads fail; zeros for an unowned id, the table row for an owned one. |
| RowStore.Store.Serve | ds41-sglang/upstream/adapter/row_store.cpp:149-164 | On success every id in [begin, end) was legal and its staged weight and scale bytes are the owed row; legal ids whose reads arrive are success; all other positions are untouched. |
| RowStore.StageRow | ds41-sglang/upstream/adapter/row_store.cpp:161-162 | The two copies stage one row and disturb no other position. |
| RowStore.Store.SetRange | ds41-sglang/upstream/adapter/row_store.cpp:404-417 | Accepted exactly for a legal range that does not move under pinned scales; a refused call changes nothing; the store stays valid unless a nonempty range moves or grows under an attached shard; scales are pinned if memory and reads allow. |
| RowStore.Store.Attach | ds41-sglang/upstream/adapter/row_store.cpp:376-402 | Attached if and only if the header page arrives and header and size fit this layer, range and table; any other outcome changes nothing. The rows are not looked at: afterwards the store is exact if and only if the file holds the table's rows. |
| PackedShard.WrittenShardServes | ds41-sglang/upstream/adapter/row_store.cpp:386-399 | A shard written from any table that passes the header test holds the store's rows if and only if the two tables have the same rows in the range. |
| RowStore.StaleShardServesOldRows | ds41-sglang/upstream/scripts/pack_engram.py:60-63 | The failing input: after the checkpoint is replaced by one of the same geometry the packing step keeps the old shard, it is attached, and a read returns the older row. |
| RowStore.MoveIsSafeExactly | ds41-sglang/upstream/adapter/row_store.cpp:397-411 | The range guard ignores an attached shard, whose file may be longer than its rows: over all tables and shards, the moved range serves right rows if and only if it is empty, or the lower bound stays and the upper one does not grow. |
| RowStore.MoveServesWrongRow | ds41-sglang/upstream/adapter/row_store.cpp:404-411 | The failing calls: attach a sound shard, move the lower bound, which is accepted, and read row newLo: row lo comes. |
| RowStore.GrownRangeServesTail | ds41-sglang/upstream/adapter/row_store.cpp:397-411 | The other failing calls: a shard with bytes behind its rows and a range that grows: a read of row hi returns those bytes. |
| RowStore.RanksSumToTable | ds41-sglang/upstream/adapter/row_store.cpp:149-164 | For every id, adding up the bytes all ranks stage gives the row of the full table. |
| RankRanges.OneOwner | ds41-sglang/upstream/adapter/engram_backend.py:104-106 | The ranges [N*r/tp, N*(r+1)/tp) partition the rows: each row has exactly one owner. |
| RankRanges.Balanced | ds41-sglang/upstream/adapter/engram_backend.py:104-106 | Any rank's range has floor(N/tp) rows or one more. |
| RankRanges.Ends | ds41-sglang/upstream/adapter/engram_backend.py:104-106 | The first range starts at row 0 and the last ends at row N. |
| RankRanges.StartIsFloor | ds41-sglang/upstream/adapter/engram_backend.py:104-106 | Each boundary is the exact share N*r/tp, rounded down. |
| PackedShard.PackLayer | ds41-sglang/upstream/scripts/pack_engram.py:51-97 | A target of exactly the right size is kept unread. Otherwise, over all counts the writes may deliver, which nobody looks at, the file never gets longer than header and rows, and it gets as long, being then exactly header and the rank's records, if and only if every write was whole. A negative step writes the header alone; a zero step, a field too large or a short read raises, and whole reads raise nothing. |
| PackedShard.SizeTells | ds41-sglang/upstream/adapter/row_store.cpp:397-399 | Among the files the packing loop can leave, those that pass the size tests of the store or of a later packing run are exactly the complete ones. |
| PackedShard.CappedChunks | ds41-sglang/upstream/scripts/pack_engram.py:73-86 | Writes cut at the most one call moves on Linux, and nowhere else, are whole if and only if a chunk fits in one. |
| PackedShard.LongChunkLosesRows | ds41-sglang/upstream/scripts/pack_engram.py:73-86 | The failing input: with chunks of 8200000 rows, whose reads are whole, the step returns a file that is too short, without an exception. |
| RowStore.PackedRowIsTableRow | ds41-sglang/upstream/adapter/row_store.cpp:108-147 | Packing, attaching and fetching together: whatever reads and writes deliver, a shard packed afresh is attached only if every write was whole, and a row fetched from it is the table row; if everything arrives the fetch completes. |
| PackedShard.CarriesMore | ds41-sglang/upstream/scripts/pack_engram.py:72-87 | Appending one interleaved chunk extends the carried rows by exactly that chunk. |
| PackedShard.InterleaveAt | ds41-sglang/upstream/scripts/pack_engram.py:81-86 | Record i of an interleaved block is weight row i followed by scale row i. |
| PackedShard.DecodeEncode | ds41-sglang/upstream/adapter/row_store.cpp:386-392 | Reading the six header fields back gives what was packed. |
| PackedShard.HeaderLayout | ds41-sglang/upstream/scripts/pack_engram.py:67-68 | The page holds magic, layer, lo, hi, rows and row size in this order, eight bytes each, the lowest byte first, then zeros. |
| PackedShard.PageLayout | ds41-sglang/upstream/adapter/row_store.cpp:386-392 | Each of the six fields read is the number its eight bytes spell, the first byte counting least. |
| PackedShard.MagicLetters | ds41-sglang/upstream/scripts/pack_engram.py:26-26 | A written shard starts with the letters DSV1EN41, the magic from its lowest byte up. |
| PackedShard.AttachPacked | ds41-sglang/upstream/adapter/row_store.cpp:379-402 | Attached if and only if the header page arrives, all six fields match and all rows are there. |
| PackedShard.AttachMatchesPack | ds41-sglang/upstream/adapter/row_store.cpp:393-399 | A written shard passes the header test for exactly the layer, range and table it was written for. |
| ReadPoolTheorems.GathersAreFilled | dsv41/patch/engram_disk.py:287-342 | For any thread count, any interleaving (any worker may take any permit) and any read lengths: a gather that raised nothing has every row whose read reached the row's end, zeros where nothing is owned, and is filled if no read fell short; between gathers no permit and no running worker is left. Holds as long as the caller's own slice never raised with helpers out. |
| ReadPoolTheorems.RaisesOnlyIfReadsDo | dsv41/patch/engram_disk.py:313-326 | Over every run in which no read raises, no gather raises. |
| ReadPoolTheorems.WholeReadsFill | dsv41/patch/engram_disk.py:287-356 | If every read of a run reached the end of its row, every gather that raised nothing is filled. |
| ReadPool.WholeExactly | dsv41/patch/engram_disk.py:335-356 | Whatever a row's place held before, a read yields the row if and only if the delivered count reaches past the bytes before the row and the row itself. |
| ReadPool.ZeroPriorExactly | dsv41/patch/engram_disk.py:335-342 | Over zeros, where buffered reads land, the row is right if and only if all of it that did not arrive is zeros. |
| ReadPoolTheorems.ShortReadLosesRow | dsv41/patch/engram_disk.py:335-356 | The count preadv returns is dropped: a gather of one row whose read leaves anything else raises nothing and returns those bytes. |
| ReadPoolTheorems.GatherEnds | dsv41/patch/engram_disk.py:287-342 | Under any schedule, with any reads and exceptions, the steps after a publication are bounded by one measure, and when no step is left the caller has returned. |
| ReadPoolTheorems.StepShrinks | dsv41/patch/engram_disk.py:300-342 | Every step of caller or worker lowers that measure. |
| ReadPoolTheorems.EachSliceOnce | dsv41/patch/engram_disk.py:290-342 | When a gather ends, slice numbers 1..helpers were drawn once each and all permits and workers are through. |
| ReadPoolTheorems.RaiseIsSafeExactly | dsv41/patch/engram_disk.py:304-311 | An exception of the caller's own slice, which does not wait for the helpers: in every later run, without another such exception, each gather that raises nothing has its rows, if and only if no helper was still out. |
| ReadPoolTheorems.RaiseAlwaysLoses | dsv41/patch/engram_disk.py:304-326 | From every reachable such state with helpers out some continuation, with whole reads only, has a gather that raises nothing and misses a row. |
| ReadPoolTheorems.RaiseLosesRows | dsv41/patch/engram_disk.py:304-326 | Such a run from the start, with one worker and two rows: the late worker's tally ends the next gather, which returns without error and without row 1. |
| ReadPoolTheorems.NeverStuck | dsv41/patch/engram_disk.py:300-326 | While a gather is out some thread can step: the done event cannot be missed. |
| ReadPoolSafety.AllThrough | dsv41/patch/engram_disk.py:300-326 | When the wait is over every permit was taken, every slice drawn and every worker is parked. |
| ReadPoolSafety.WaitIsKept | dsv41/patch/engram_disk.py:305-311 | A finished gather without a recorded error has every row it still owes, that is every one not read short. |
| ReadPoolSafety.SlicesCover | dsv41/patch/engram_disk.py:291-292 | The slices 0..parts-1 of ceil(n/parts) rows cover every position. |
| ReadPoolSafety.StepIsLeast | dsv41/patch/engram_disk.py:291-292 | The slice length is the least for which the slices cover every row. |
| ReadPoolSafety.SlicesDisjoint | dsv41/patch/engram_disk.py:328-333 | No position is in two slices. |
| ReadPoolSafety.WorkerRaiseKeeps | dsv41/patch/engram_disk.py:318-326 | A worker's exception, recorded before its tally, keeps the invariant. |
| DiskTable.BuildRowFile | dsv41/patch/engram_disk.py:87-108 | For every positive chunk size the file is the rows' records in order; a negative step leaves it empty, a zero step is an error. |
| DiskTable.RecordAt | dsv41/patch/engram_disk.py:81-108 | Record i sits at i times the stride. |
| DiskTable.SpanCovers | dsv41/patch/engram_disk.py:161-164 | Wherever a row starts inside its first block, the read span contains all of it; it is whole blocks, and less than two blocks more than the row. |
| DiskTable.ReadsAreAligned | dsv41/patch/engram_disk.py:219-229 | A direct read starts at a block boundary, less than a block before its row; a buffered one at the row. |
| DiskTable.AlignedRead | dsv41/patch/engram_disk.py:343-356 | An aligned read leaves in the row's place the row as far as the delivered bytes reach and the scratch buffer's old bytes after. |
| DiskTable.AlignedReadExactly | dsv41/patch/engram_disk.py:343-356 | Over all scratch contents the row is right if and only if at least off % align + stride bytes were delivered. |
| DiskTable.BufferedReadExactly | dsv41/patch/engram_disk.py:335-342 | A buffered read into a fresh result gives the wanted row if and only if that row is zeros from where the read stopped. |
| DiskTable.FullReadIsWhole | dsv41/patch/engram_disk.py:161-164 | A read that delivers all of the span, up to the end of the file, does deliver that many. |
| DiskTable.ReadRow | dsv41/patch/engram_disk.py:335-356 | Reads one wanted row into its place, buffered or through the scratch buffer: the row as far as the read went, old bytes after, no other row changed. |
| DiskTable.ReadSlice | dsv41/patch/engram_disk.py:328-356 | One slice places each owned row of its positions whose read was whole and leaves unowned and other positions alone. |
| DiskTable.Gather | dsv41/patch/engram_disk.py:212-244 | Over the file built from the tensors, for every index list, row start, row count, thread count, power-of-two alignment and read lengths: every position whose read reached its row's end, and every unowned one, is the in-memory reference's row, and is, element by element, the product of its own byte and its own block's scale, or zero; if all did, the result is the reference. |
| DiskTable.AnyScheduleGathers | dsv41/patch/engram_disk.py:212-244 | The same, position by position and element by element, for the rows any interleaving of the read pool leaves. |
| DiskTable.WholeReadsGatherReference | dsv41/patch/engram_disk.py:212-244 | Any interleaving in which every read reached its row's end gives the reference and those elements. |
| DiskTable.ShortReadIsServed | dsv41/patch/engram_disk.py:335-356 | For every owned index and short read, over zeros on the buffered path, some gather of the pool returns the received bytes as the row, without an error. |
| DiskTable.DecodedIsReference | dsv41/patch/engram_disk.py:359-374 | A result row that is right, or unowned, decodes to the reference row and to those elements. |
| DiskTable.ReferenceElements | dsv41/patch/engram_disk.py:366-374 | Element r of block q of an owned reference row is the product of that byte of the weight row and scale q of the scale row; unowned rows are zeros. |
| DiskTable.WantedIsRecord | dsv41/patch/engram_disk.py:217-231 | The bytes a gather wants for an owned index are that row's weight and scale bytes. |
| DiskTable.Open | dsv41/patch/engram_disk.py:152-164 | The row count is the one asked for, or all the file holds if that is fewer or none was asked for; every owned row lies inside the file. |
| Hadamard.NetworkIsProduct | sparkrun-glm53-exl3/overlay/gb10_rotations.py:55-68 | For every k, the k exchange stages multiply a length 2^k vector by the sign matrix (-1)^popcount(i AND j). |
| Hadamard.NetworkTwice | sparkrun-glm53-exl3/overlay/gb10_rotations.py:55-68 | Running n of the stages twice returns 2^n times the input. |
| Hadamard.NetworkAt | sparkrun-glm53-exl3/overlay/gb10_rotations.py:55-68 | After n stages every aligned block of 2^n holds the recursive transform of the block it started with. |
| Hadamard.TransformIsDot | sparkrun-glm53-exl3/overlay/gb10_rotations.py:55-68 | The recursive transform is the signed sum over the block. |
| Hadamard.StagesCommute | sparkrun-glm53-exl3/overlay/gb10_rotations.py:57-68 | Stages on different bits commute. |
| Hadamard.StageTwice | sparkrun-glm53-exl3/overlay/gb10_rotations.py:57-68 | One stage applied twice doubles every element. |
| Bits.XorIsFlip | sparkrun-glm53-exl3/overlay/gb10_rotations.py:59 | XOR with a power of two flips exactly that bit. |
| Bits.AndIsBit | sparkrun-glm53-exl3/overlay/gb10_rotations.py:64 | AND with a power of two tests exactly that bit. |
| Bits.AndMask | dsv41/patch/engram_disk.py:221-226 | Masking with 2^k - 1 is the remainder modulo 2^k, for the cut of an aligned read. |
| Bits.AndNotMask | ds41-sglang/upstream/adapter/row_store.cpp:94-95 | Clearing those bits rounds down to a multiple of 2^k, for the page an offset lies in. |
| Rotations.ExchangeIsStage | sparkrun-glm53-exl3/overlay/gb10_rotations.py:57-68 | Exchanging the four components at lane distance 2^step is stage step + 2 of the 128-point network, with index 4 * lane + component. |
| Rotations.FourPointIsNetwork | sparkrun-glm53-exl3/overlay/gb10_rotations.py:55-56 | The 4-point butterfly is stages 0 and 1. |
| Rotations.RotateSlab | sparkrun-glm53-exl3/overlay/gb10_rotations.py:40-78 | The kernel body computes, for all 128 entries, the Hadamard product times the constant, with the channel scales before (PRE) or after. |
| Rotations.ScalesActFirst | sparkrun-glm53-exl3/overlay/gb10_rotations.py:50-54 | With PRE, rotating under channel scales is rotating the scaled slab under unit scales. |
| Rotations.ScalesActLast | sparkrun-glm53-exl3/overlay/gb10_rotations.py:73-77 | Without PRE it is rotating under unit scales and scaling each entry afterwards. |
| Rotations.UnscaledIsSignedSum | sparkrun-glm53-exl3/overlay/gb10_rotations.py:55-72 | Under unit scales entry i is the constant times the signed sum of the slab. |
| Rotations.RotatedTwice | sparkrun-glm53-exl3/overlay/gb10_rotations.py:55-72 | Rotating twice under unit scales returns the slab times a factor within 10^-10 of one. |
| Rotations.Rotate | sparkrun-glm53-exl3/overlay/gb10_rotations.py:82-97 | For any multiprocessor count the launch rotates every slab with its own column scales; input and output may be one buffer. |
| Rotations.RotateOne | sparkrun-glm53-exl3/overlay/gb10_rotations.py:32-79 | One slab is rotated and nothing outside it is written. |
| Rotations.ScaleIsColumns | sparkrun-glm53-exl3/overlay/gb10_rotations.py:32-43 | In a matrix with as many columns as scales every element meets its own column's scale. |
| Argmax.ReductionIsArgmaxExactly | sparkrun-glm53-exl3/overlay/gb10_argmax.py:25-96 | For any shard sizes, block size and rank count the three reductions name the flat argmax (first NaN, else first maximum) of the joined vocabulary if and only if rank 0 holds a real logit or some logit is above -inf: an empty rank 0 wins the tie of an all -inf row. |
| Argmax.EmptyRankTakesTie | sparkrun-glm53-exl3/overlay/gb10_argmax.py:25-96 | The failing row: an empty rank 0 beside one logit of -inf; the answer is token 0, which nobody holds. |
| Argmax.FullRankIsArgmax | sparkrun-glm53-exl3/overlay/gb10_argmax.py:68-75 | A winning rank with real logits holds the argmax of the joined row. |
| Argmax.EmptyWins | sparkrun-glm53-exl3/overlay/gb10_argmax.py:68-75 | An empty rank wins only as rank 0, and only if every real logit is -inf. |
| Argmax.FullBeatsEmpty | sparkrun-glm53-exl3/overlay/gb10_argmax.py:68-75 | Behind an empty rank 0 a rank wins only with a logit above -inf. |
| Argmax.LocalIsBest | sparkrun-glm53-exl3/overlay/gb10_argmax.py:49-65 | The shard kernel reports its first best valid column, or -inf at column 0 if none is valid, with the token id exact in float32. |
| Argmax.PartialIsBest | sparkrun-glm53-exl3/overlay/gb10_argmax.py:37-46 | A block reports its first best valid column; an empty block reports -inf and exactly 2^31. |
| Argmax.WinnerIsBest | sparkrun-glm53-exl3/overlay/gb10_argmax.py:25-34 | A reduction over increasing indices returns the first best valid lane, NaN above everything; without valid lanes -inf and INT_MAX. |
| Argmax.BestOfBests | sparkrun-glm53-exl3/overlay/gb10_argmax.py:37-75 | The best of consecutive pieces' bests is the best of the whole, first index first. |
| Argmax.BlocksCompose | sparkrun-glm53-exl3/overlay/gb10_argmax.py:49-60 | The best non-empty block's column is the best valid column of the shard. |
| Argmax.BestIsFlat | sparkrun-glm53-exl3/overlay/gb10_argmax.py:25-34 | Best over all positions is the framework's argmax. |
| Argmax.ArgmaxIsGreatest | sparkrun-glm53-exl3/overlay/gb10_argmax.py:25-34 | In numbers: without a NaN the argmax is the first of the greatest logits, infinities included. |
| Argmax.FlatIsUnique | sparkrun-glm53-exl3/overlay/gb10_argmax.py:25-34 | There is one argmax. |
| Argmax.MarkerRounds | sparkrun-glm53-exl3/overlay/gb10_argmax.py:54-57 | INT_MAX rounds to 2^31 in float32, so the empty-block test is exact. |
| Argmax.ToF32Exact | sparkrun-glm53-exl3/overlay/gb10_argmax.py:80-81 | Token ids below 2^24 survive the float32 carry. |
| Argmax.ExactIsLargest | sparkrun-glm53-exl3/overlay/gb10_argmax.py:80-81 | 2^24 + 1 does not survive it: the exact range is the largest. |
| Argmax.RankWins | sparkrun-glm53-exl3/overlay/gb10_argmax.py:69-75 | The global kernel returns the token of the first rank with the greatest value. |
| Argmax.PartialLaunch | sparkrun-glm53-exl3/overlay/gb10_argmax.py:38-46 | The first launch fills every row's and block's packet. |
| Argmax.LocalPairs | sparkrun-glm53-exl3/overlay/gb10_argmax.py:78-88 | Refuses exactly the shard dimensions outside the exact range; otherwise every row's packet is the shard reduction. |
| Argmax.GlobalTokens | sparkrun-glm53-exl3/overlay/gb10_argmax.py:91-96 | Refuses a wrong packet width; otherwise returns every row's winning token. |
| Striping.TokenRoundTrip | sparkrun-glm53-exl3/overlay/smoke_r22_v16.py:64-67 | Owner and local place of a token lead back to it through the local-to-global formula. |
| Striping.PlaceRoundTrip | sparkrun-glm53-exl3/overlay/smoke_r22_v16.py:64-67 | The token the formula gives for (rank, place) is owned by that rank at that place: with the line above, a bijection. |
| Striping.BelowCount | sparkrun-glm53-exl3/overlay/gb10_indexer_prefill.py:16-18 | A token is below n if and only if its place is below its owner's local count. |
| Striping.CountsConserve | sparkrun-glm53-exl3/overlay/gb10_indexer_prefill.py:16-18 | The ranks' local counts add up to the length. |
| Striping.CountGrows | sparkrun-glm53-exl3/overlay/gb10_indexer_prefill.py:16-18 | Local counts grow with the length. |
| Striping.RankZeroLargest | sparkrun-glm53-exl3/overlay/gb10_indexer_prefill.py:99 | Rank 0 has the largest local count. |
| Striping.DigitsGive | sparkrun-glm53-exl3/overlay/r22_v12_ckv.py:22-23 | Owner and place from a token's round, rank and run position. |
| IndexerPrefill.CausalMetadata | sparkrun-glm53-exl3/overlay/gb10_indexer_prefill.py:21-46 | The masked launch writes every row's start and end, the end for the context total - query length + position + 1, every page entry and both cumulative pairs, for any number of programs that covers them and any live lengths. |
| IndexerPrefill.EndIsCount | sparkrun-glm53-exl3/overlay/gb10_indexer_prefill.py:32-34 | For a context that is not negative the kernel's formula is the local count. |
| IndexerPrefill.NoContextNoEnd | sparkrun-glm53-exl3/overlay/gb10_indexer_prefill.py:32-34 | A row whose live context is empty or negative scans nothing. |
| IndexerPrefill.BuildPagedChunk | sparkrun-glm53-exl3/overlay/gb10_indexer_prefill.py:54-101 | Which of the outcomes (delegated, none, error, chunk) each input gets, the whole contents of the chunk, and which tokens each of its rows scans, in terms of the live lengths and query offsets. |
| IndexerPrefill.RowScansContext | sparkrun-glm53-exl3/overlay/gb10_indexer_prefill.py:32-36 | Row o of a slice from `begin` scans an owned token t if and only if t + query length <= total + begin + o. |
| IndexerPrefill.RowScansItself | sparkrun-glm53-exl3/overlay/gb10_indexer_prefill.py:32-36 | Each row scans its own token and none after it; the last query scans the whole request. |
| IndexerPrefill.RanksScanContext | sparkrun-glm53-exl3/overlay/gb10_indexer_prefill.py:32-36 | Over all ranks the local ends of a row add up to total - query length + begin + o + 1, if that is not negative; those of the last query to the total. |
| IndexerPrefill.PagesCoverRows | sparkrun-glm53-exl3/overlay/gb10_indexer_prefill.py:37-41 | If the CPU length is an upper bound, every slot a row scans lies on a page the chunk carries, and ends <= live <= upper <= maximum. |
| IndexerPrefill.WidthIsLeast | sparkrun-glm53-exl3/overlay/gb10_indexer_prefill.py:82-83 | The page table has the fewest columns that cover the CPU bound, at least one, unless the source has fewer. |
| IndexerPrefill.NoTrailingPage | sparkrun-glm53-exl3/overlay/gb10_indexer_prefill.py:37-41 | A page past the live local tokens is never exposed. |
| Ckv.PrepareMetadata | sparkrun-glm53-exl3/overlay/r22_v12_ckv.py:42-73 | Refuses exactly the bad geometries without writing; otherwise every row of `out`, its count and its causal length are as specified. The causal length and the query rows of its request after the row add up to the live length, and a selection of distinct live tokens up to the row's own is kept whole. |
| Ckv.CausalLengths | sparkrun-glm53-exl3/overlay/r22_v12_ckv.py:18-19 | The last query row of a request sees all of it, and each row one token more than the row before. |
| Ckv.CountIsLeast | sparkrun-glm53-exl3/overlay/r22_v12_ckv.py:30-33 | The count is the smaller of the used ids and the causal length. |
| Ckv.MetadataRow | sparkrun-glm53-exl3/overlay/r22_v12_ckv.py:13-39 | One program writes its whole row and touches no other. |
| Ckv.StoreChosen | sparkrun-glm53-exl3/overlay/r22_v12_ckv.py:30-37 | The compacting store places used ids in selection order below the count and nothing elsewhere. |
| Ckv.Offsets | sparkrun-glm53-exl3/overlay/r22_v12_ckv.py:30-31 | The prefix sums number the used lanes. |
| Ckv.OneWriter | sparkrun-glm53-exl3/overlay/r22_v12_ckv.py:32-37 | Whatever the order of the stores, each column is written exactly once, with the entry it must hold. |
| Ckv.EntryHoldsToken | sparkrun-glm53-exl3/overlay/r22_v12_ckv.py:20-37 | If each rank stores its tokens at start + local of its padded segment, every non-negative entry addresses the record of the selected token, in order; exactly the columns below min(used, causal) are non-negative. |
| Ckv.SlotsAreDistinct | sparkrun-glm53-exl3/overlay/r22_v12_ckv.py:35-37 | Two entries address one slot if and only if they stand for the same token. |
| Ckv.PackingStores | sparkrun-glm53-exl3/overlay/r22_v12_ckv.py:24-28 | Packing requests back to back and gathering equal padded segments is such a layout. |
| Ckv.EverySelectionKept | sparkrun-glm53-exl3/overlay/r22_v12_ckv.py:29-37 | Distinct live ids below the causal length are all kept: every one is addressed by some column. |
| Ckv.PicksLiveTokens | sparkrun-glm53-exl3/overlay/r22_v12_ckv.py:24-29 | With live shard lengths an id is used if and only if it is a token of the request. |
| Replace.StepBackExactly | ds41-vllm/patches/sparkring_performance.py:88-94 | Swapping one replacement back restores the bytes if and only if the new text is found exactly once and first at its own place. |
| Replace.StepBackOrError | ds41-vllm/patches/sparkring_performance.py:88-94 | If no proper prefix of the new text is its suffix, swapping back restores the bytes or reports an error. |
| Replace.RoundTrip | ds41-vllm/patches/sparkring_performance.py:88-94 | If every step is clean, reversing the transformed bytes gives the original. |
| Replace.RoundTripExactly | ds41-vllm/patches/sparkring_performance.py:88-94 | With such new texts the reverse of any successful transform is the original if every step was clean and an error otherwise. |
| Replace.OverlapLosesBytes | ds41-vllm/patches/sparkring_performance.py:88-94 | Without that condition a concrete replacement reverses to other bytes without an error. |
| Replace.ApplySwaps | ds41-vllm/patches/sparkring_performance.py:88-94 | The loop computes the fold of the replacements, or of their reverses last first, and fails as soon as a step does. |
| Replace.CountOne | ds41-vllm/patches/sparkring_performance.py:91-93 | A count of one means the first occurrence exists and nothing occurs at or past its end. |
| Replace.OneIsCounted | ds41-vllm/patches/sparkring_performance.py:91-93 | Conversely an anchor with no copy past its first one is counted once. |
| PatchEngine.Tree.Patch | ds41-vllm/patches/sparkring_performance.py:97-124 | Succeeds exactly if all files, the helper and (in check mode) the state validate; a failed run and every check write nothing; a successful run leaves the specified tree. It succeeds only if every text it would write compiles, and leaves such files. |
| PatchEngine.Tree.Validate | ds41-vllm/patches/dspark_prefill.py:128-140 | A file validates exactly if it is pinned or reverses to a pinned text, transforms, compiles and, in check mode, already matches. |
| PatchEngine.PatchedTree | ds41-vllm/patches/sparkring_performance.py:119-124 | After a successful run each file holds its target text and the helper is installed or gone. |
| PatchEngine.OtherPathsUntouched | ds41-vllm/patches/sparkring_performance.py:119-124 | No other path changes. |
| PatchTheorems.SuccessIsExact | ds41-vllm/patches/sparkring_performance.py:104-115 | With a collision-free digest and one pin, any successful run, from any tree whatever, leaves each file at exactly the pinned original or exactly its transform. |
| PatchTheorems.SuccessIsAdmitted | ds41-vllm/patches/karmic_autotune.py:88-94 | With several admitted originals, any successful run leaves each file at exactly one of them, or exactly the transform of one. |
| PatchTheorems.CheckIsExact | ds41-vllm/patches/dspark_prefill.py:138-144 | A passing check means the tree already is that tree, helper included. |
| PatchTheorems.Converges | ds41-vllm/patches/karmic_autotune.py:79-107 | From any tree of independently pinned or patched files that are recognised, a run succeeds, reaches the uniform tree, then passes its check and repeats as a no-op; sets of admitted digests included. |
| PatchTheorems.CleanPatchesConverge | ds41-vllm/patches/karmic_autotune.py:79-107 | Convergence from the texts alone: clean patches whose results are no other admitted original converge from every mixture. |
| PatchTheorems.InterruptedConverges | ds41-vllm/patches/dspark_prefill.py:145-151 | A run stopped between two file writes, in either direction, leaves a tree from which every later run converges. |
| PatchTheorems.AcceptedExactly | ds41-vllm/patches/dspark_prefill.py:128-137 | With one pin per file a mixed tree is accepted if and only if every patched file is recognised. |
| PatchTheorems.RecoversExactly | ds41-vllm/patches/sparkring_performance.py:106-109 | With unbordered new texts and one pin, a patched file is recognised if and only if its patch is clean. |
| PatchTheorems.CleanRecovers | ds41-vllm/patches/karmic_autotune.py:88-92 | A clean patch is recognised, unless the patched text is itself another admitted original. |
| BuildTags.RestoreReturnsOriginal | ds41-vllm/prepare-build-tags.py:23-45 | After any history of filtering and restoring runs, each complete, refused or stopped after any deletion, a restore is accepted and returns exactly the original refs. |
| BuildTags.HistoryKeeps | ds41-vllm/prepare-build-tags.py:36-45 | In every state of such a history each original ref is in the clone or, if an artifact tag, in the record, with its original id, and nothing else is in either. |
| BuildTags.ArtifactExactly | ds41-vllm/prepare-build-tags.py:9-9 | The artifact tags are those whose name is the prefix and anything without a slash. |
| BuildTags.ObjectIdsAreValid | ds41-vllm/prepare-build-tags.py:26-27 | Restoring accepts every object id of 40 or 64 hex digits saved for an artifact tag. |
| BuildTags.PrepareNotRefused | ds41-vllm/prepare-build-tags.py:38-41 | After such a history a filtering run finds no conflict. |
| BuildTags.ConflictRefused | ds41-vllm/prepare-build-tags.py:29-33 | A tag whose id changed since the backup makes filtering change nothing and restoring fail without touching it. |
| BuildTags.Clone.Prepare | ds41-vllm/prepare-build-tags.py:36-45 | The record is written before any deletion; complete runs remove every artifact tag; refused runs change nothing; a stopped run has deleted artifact tags only. Tags outside the artifact namespace stay in every case. |
| BuildTags.Clone.Restore | ds41-vllm/prepare-build-tags.py:25-35 | Succeeds exactly if every entry is valid and agrees with the clone; never overwrites a ref; on success the clone is record plus refs. |
| BuildTags.Merge | ds41-vllm/prepare-build-tags.py:38-41 | The new record is the old one with the listed refs, refused exactly on a changed id. |
| Overlap.SweepFindsPeak | ds41-sglang/upstream/benchmarks/matrix.py:97-101 | What the sweep returns is the maximum over all times of the number of half-open intervals containing that time, for all intervals with first <= finished, ties and empty intervals included. |
| Overlap.Sweep | ds41-sglang/upstream/benchmarks/matrix.py:98-101 | The loop returns the greatest running count of the deltas, the one before the first event included. |
| Overlap.PrefixIsReached | ds41-sglang/upstream/benchmarks/matrix.py:97-101 | Every running count of a sweep with ends before starts at ties is at most the overlap at some time. |
| TensorPad.PaddedFits | ds41-sglang/upstream/adapter/tp3_pad.py:40-67 | For whole groups of any size the padded counts keep the group size, divide by the ranks and have a kernel for the local head count if and only if whole groups fill the chosen local count, as groups of 1, 2, 4 or 8 always do; then they never shrink if and only if the heads are at most 128 per rank. |
| TensorPad.PaddingShrinks | ds41-sglang/upstream/adapter/tp3_pad.py:53-62 | A shrinking input: 1024 heads in 128 groups over three ranks become 384. |
| TensorPad.PaddedModel | ds41-sglang/upstream/adapter/tp3_pad.py:40-62 | 64 heads in groups of eight over three ranks become 96, 32 for each rank. |
| TensorPad.PaddingIsLeast | ds41-sglang/upstream/adapter/tp3_pad.py:53-62 | No legal local count of whole groups that holds the heads is smaller than the chosen one. |
| TensorPad.IdempotentExactly | ds41-sglang/upstream/adapter/tp3_pad.py:53-62 | Padding twice is padding once, for whole groups of any size, if and only if the second rounding of the groups is not needed, or the groups it gives each rank make a legal local count, or the next legal count is not whole groups either and makes no further group. |
| TensorPad.FittingComesOutEven | ds41-sglang/upstream/adapter/tp3_pad.py:57-62 | A padded model that fits never needs the second rounding. |
| TensorPad.PaddingNotIdempotent | ds41-sglang/upstream/adapter/tp3_pad.py:60-62 | A failing input: for groups of three over two ranks a second pass changes the first one's result. |
| TensorPad.Config.PadTwice | ds41-sglang/upstream/adapter/tp3_pad.py:110-122 | The wrapper's two passes, for whole groups of any size: they leave the twice-padded configuration, and the once-padded one exactly under that condition. |
| TensorPad.CeilIsLeast | ds41-sglang/upstream/adapter/tp3_pad.py:31-32 | Rounding up gives the least sufficient multiple. |
| TensorLoad.LoadColumnParallel | ds41-sglang/upstream/adapter/tp3_pad.py:136-161 | All branches of the parameter's loader: presharded weights are handed on, a full shard is narrowed, a short one padded, scales filled with one, a short tensor copied over fill. |
| TensorLoad.LoadedIsShardExactly | ds41-sglang/upstream/adapter/tp3_pad.py:139-161 | The parameter then holds its slice of the checkpoint followed by its own fill if and only if checkpoint and parameter agree on being float32, or narrowing added no padding. |
| TensorLoad.ColumnWeightLoader | ds41-sglang/upstream/adapter/tp3_pad.py:167-188 | The layer's loader takes over the padded shards that narrowing made full, hands on the others unwritten, narrowed and filled, and raises when it fills a short one. |
| TensorLoad.ColumnLoadedExactly | ds41-sglang/upstream/adapter/tp3_pad.py:177-187 | A padded shard it takes over is the one the parameter wants if and only if the parameter is float32 exactly when the checkpoint's tensor is and the shard does not start past it. |
| TensorLoad.ScaleIsLost | ds41-sglang/upstream/adapter/tp3_pad.py:182-184 | The failing input: one scale row over three ranks leaves rank 2 a scale of zero where one is wanted. |
| TensorLoad.ScaleTypeIsLost | ds41-sglang/upstream/adapter/tp3_pad.py:182-184 | The other failing input: a float32 parameter padded by one whose checkpoint tensor has another type gets zero where one is wanted. |
| TensorLoad.ShardsRebuildCheckpoint | ds41-sglang/upstream/adapter/tp3_pad.py:136-161 | Ranks that hold their wanted shards hold, joined, the checkpoint tensor followed by fill. |
| GcGate.CollectionIsDeferred | ds41-vllm/patches/sparkring_gc_runtime.py:10-32 | However any number of threads enter and leave, collection is off exactly while one is inside (or it was off before), and is back in its first state when the last has left. |
| GcGate.InterleavingCounts | ds41-vllm/patches/sparkring_gc_runtime.py:21-32 | The holder count equals the contexts the threads are inside, in every state of every interleaving. |
| GcGate.NextCounts | ds41-vllm/patches/sparkring_gc_runtime.py:21-32 | Entering and leaving keep the count equal to the contexts the threads are inside, collection off while it is positive, and the first state remembered. |
| GcGate.Gate.Enter | ds41-vllm/patches/sparkring_gc_runtime.py:21-25 | After entering, with any threads inside, collection is off and the gate still counts them. |
| GcGate.Gate.Leave | ds41-vllm/patches/sparkring_gc_runtime.py:28-32 | After leaving, collection is on exactly if nobody is left inside and it was on at the start, and the gate still counts. |

## Left out

- RowStore.Store.SetRange: with an attached packed shard validity afterwards is claimed only under the condition of RowStore.MoveIsSafeExactly, because the code's guard does not cover the other case.
- PackedShard.PackLayer: the rename and the fsync are not modelled, nor a write that raises.
- RowFile.ReadFrom: a retry after an interrupted system call is one read; O_DIRECT fallbacks are not distinguished.
- PoolTheorems.ReturnedJobsAreServed: memory orders weaker than sequential consistency are not modelled; a miss read is one atomic step on an immutable file; pool shutdown and thread start-up are left out.
- ReadPoolTheorems.GathersAreFilled: supposes that the caller's own slice does not raise while helpers are out, exactly the condition of ReadPoolTheorems.RaiseIsSafeExactly; callers queue on the lock as one caller; closing the pool is left out. What the place of a row held before a read is arbitrary in the machine.
- DiskTable.Gather: the reference's block size is fixed at 32 as in the code; rows have at least one byte. Slices run in order here, in every order in DiskTable.AnyScheduleGathers.
- DiskTable.Open: the alignment probe is left out; the alignment is any power of two.
- DiskTable.DecodedIsReference: the FP8 and scale-byte decoding and the rounding of their product are one uninterpreted function on both sides.
- Rotations.RotateSlab: arithmetic is over the reals; the FP16 casts and the rounding of the constant are left out.
- Argmax.ReductionIsArgmaxExactly: supposes that later ranks' first token ids are greater than rank 0's, and fewer than 2^31 ranks; values are reals with NaN and infinities, so the narrowing of logits is left out. A packet is a pair, without its two padding words.
- Ckv.PrepareMetadata: dtype and contiguity checks are types here; request ids are in range, as the kernel's loads suppose; 32-bit overflow of addresses is not modelled. The query-borrowing predicate is left out: it is one comparison of ranges.
- IndexerPrefill.BuildPagedChunk: the delegated builder is not part of this model.
- PatchEngine.Tree.Patch: one file write is atomic and files hold whole byte strings; whether a text compiles is a parameter. The 8192-token graph patch is the same engine without a helper and is not instantiated.
- PatchTheorems.SuccessIsExact: SHA-256 is a collision-free function.
- BuildTags.Clone.Prepare: the record file is written in one step; the workspace and commit guards and concurrent ref updates are left out. Listing the tags is a filter of the refs.
- Overlap.SweepFindsPeak: the library sort is any sorted permutation of the events, by time and then end before start.
- TensorPad.PaddedFits: group counts that do not divide the heads, and the vision and expert counts beyond their rounding, are left out.
- TensorLoad.LoadColumnParallel: other dimensions than the sharded one, dtype conversion in the copy and the original loaders are left out; `pad_or_narrow_weight` is not part of this model and is supposed to return the slice followed by zeros.
- GcGate.CollectionIsDeferred: nobody else switches collection while a thread is inside, and the feature flag is on.
- The staging dictionaries of `owned` and the statistics call: plain bookkeeping.
- Barrier clearing in `knapcio_decode_runtime.py`: one alignment fact.
- Fleet, benchmark and observation scripts, HTTP, SSH and Docker code: plumbing.
- The texts of the upstream patches and every CUDA, Triton or C source inside strings: only the engine that places them is modelled.
