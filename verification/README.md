# A verified model of BrieFS

BrieFS is a small journaling filesystem: a user-space bridge (`fuse/`), the on-disk formats and their
writers (`briefs/`), and `mkfs`/`fsck` (`cmd/`). This project models its hard core in Dafny and proves what
the code and its comments promise of it. `dafny verify dfyconfig.toml` checks every module.

The modules follow the program:

- **File data** - `Extents` (the sorted extent list as a block map), `FileModel`, `FileImage` (what an
  operation, or a failed one, does to the bytes up to the end of the last block), `FileSteps`, `FileRanges`,
  `FileEffects` and `FileStore` (class `ExtentFile`: read, write, truncate and the five fallocate modes, each
  proved against a plain byte string, over every history, failures included).
- **Extent B+ tree** - `BtreeWalk` (node blocks, the index-descent walk, fsck's checks), `BtreeProofs`,
  `BtreeExact` (what the walk and fsck accept, on any device), `BtreeBuild` (the bottom-up builder),
  `BtreeRoute` (lookups by separator), `BtreeRebuild` (the localized rebuild), `Shield` (the metadata
  reserve), `Runs` (run-encoded block lists).
- **Journal** - `JournalBlock` (records in a block), `RingState` (the ring as a state machine),
  `JournalReplay` (reading the log back), `JournalRing` (class `Journal`).
- **Write-back and deferred frees** - `WriteBack`, a step model of stores, drains, allocations and frees in
  every interleaving.
- **Allocator** - `Words`, `AllocCore`, `RunScan`, `Allocator` (class `Pool`).
- **Directory trie** - `TrieTree`, `TriePaths`, `TrieOps` (class `DirTrie`), `TrieWalk` (class
  `TrieWalker`), `NameHeap` (the name heap of a trie page).
- **Extended attributes** - `XattrPlan` (packing), `XattrCodec` (rendering, the chain, loading), `XattrStore`
  (class `XattrFile`: set, replace, remove, get and list over every history).
- **Replay** - `Replay` (class `Replayer`: inode slots and allocation bitmaps).
- `Bytes`, `Options` and `Sets` hold shared definitions.

Conventions. A block is 4096 bytes. Answers of the allocator are parameters: distinct free blocks or
disjoint free runs. Whether an index rebuild succeeds is a parameter where its nodes are not the subject.
Checksums and 16-byte headers are a codec with a stated soundness property, and the little-endian codec
is proved to have it. A 64-bit bitmap word is the set of its bit positions.

## Where the code does less than its comments say

Each of these is proved together with the exact condition under which the promise holds.

- *A failed write.* A write that fails part-way leaves its first blocks on the device, past the end of file
  too. Truncation, a write past the end and a growing ZERO_RANGE zero that tail before they grow the file, so
  they are the byte-string operation whatever it holds. Plain preallocation does not: it is the byte-string
  operation exactly when it does not grow the file, the file ends on a block boundary, its last block is a
  hole or unwritten, or the tail bytes it uncovers are zero (`FileStore.ExtentFile.Preallocate`,
  `FileImage.ImageExact`, `FileImage.DirtyTailExact`). Only a failed write past the end of file makes a clean
  tail dirty (`FileImage.StepClean`). `FileStore.FailedWriteShows` is a run in which a file shows bytes no
  successful operation wrote.
- *INSERT_RANGE.* The EFBIG guard subtracts without checking: once a file is larger than the device it
  refuses nothing (`FileSteps.InsertGuardExact`).
- *The leaf chain.* The localized rebuild says it keeps a leaf only if its successor keeps its block. The
  last kept leaf's successor is always re-emitted, so after a rebuild the `next_leaf` chain is intact exactly
  when no leaf was kept, and otherwise one link names a freed block (`BtreeRebuild.ThreadedIff`,
  `RebuildLocalized`). Appending to a list of at least two full leaves is such a case
  (`BtreeRebuild.AppendKeepsLeaf`). The index descent and fsck do not follow the chain.
- *The metadata reserve* covers the builder's nodes exactly when the index nodes over the leaves leave at most
  506 child slots unused (`Shield.ReserveExact`). Trees with at most two index levels always do
  (`ReserveCovers`); with three, the node counts of the lower two levels decide (`ReserveThirdLevel`). No bound
  on the extent count decides it: the reserve fails at 8129017 extents, holds at 8160769 and fails again at
  8161021 (`ReserveNotMonotone`), and fails somewhere on every greater height (`ReserveFails`).
- *Journal payloads.* A payload over 4064 bytes is accepted, cut off by the copy, and makes the block
  unreadable; a log reads back if and only if no committed payload is larger (`JournalBlock.PayloadLimit`,
  `JournalReplay.WalkJournal`). A log that fills the ring has `log_start == log_end` and reads as
  empty. A sync of a dirty block ends so exactly when the position after its block is `log_start` and no
  periodic checkpoint is due: the second back-pressure check looks one block further
  (`Journal.SyncLocked`, `RingState.SyncHides`). On a ring of any size, as many one-record syncs as it has
  record blocks lead there from a log at the ring's start (`JournalRing.FillRing`).
- *SyncMeta* returns freed blocks to the allocator before it deletes the drained copies. A new owner reads back
  whatever it writes on the device exactly when it did not get the block from a drain that still holds a copy
  of it (`WriteBack.VisibleIff`, `WriteBack.ShadowWindow`); the copy's deletion ends it
  (`WriteBack.ShadowEnds`). The readers that see the old copy are those that go through `ReadBlock`: the
  read-modify-write at fuse/file_ops.go:442 and `zeroBlockRange`. `ReadRun` goes to the device. The drain
  itself never overwrites such a write (`WriteBack.SafeSteps`).
- *Attribute values.* A value of exactly 65536 bytes is accepted and its 16-bit length is stored as 0;
  attributes come back unchanged if and only if every value has at most 65535 bytes (`XattrCodec.KeptIff`).
  One such attribute is stored and comes back empty (`XattrCodec.LargestValue`).
- *Replay of frees.* Replaying a free record frees the run's blocks of the data region exactly when the run
  starts in the region or ends before it (`Replay.FreeExact`): a run across its start is dropped whole, while
  the allocation record of the same run is clipped block by block (`Replay.StraddlingFree`). The bridge's own
  writers log only runs inside the region.

## Model

| member | source | states |
|---|---|---|
| FileStore.ExtentFile.ReadFileData | fuse/file_ops.go:79-178 | a read returns the requested bytes of the byte string, clamped to the file size |
| FileStore.ExtentFile.Write | fuse/file_ops.go:374-513 | byte by byte: the data in its range, the old bytes elsewhere, zeros in a gap; refused past 2^63 - 1; otherwise, with a working rebuild, it succeeds exactly when there are as many fresh blocks as holes in its range; blocks are conserved; a failed one changes a byte only to its own data and keeps list, size and free set, and what it left past the end of file is exactly the part that landed in blocks already shown, and the zeroed gap |
| FileStore.ExtentFile.WriteData | fuse/file_ops.go:374-513 | the same against the byte-string write, with the cause of every failure and where it stopped |
| FileStore.ExtentFile.Truncate | fuse/extent_ops.go:936-1059 | byte by byte: the old bytes, then zeros, whatever lay past the end of file; leaves zeros there; succeeds exactly when the size is at most 2^63 - 1 and a shrink can rebuild the index; a failed one zeroes exactly the tail of the new last block |
| FileStore.ExtentFile.CollapseRange | fuse/extent_ops.go:492-521 | removes exactly the range; succeeds exactly for aligned ranges that end before EOF |
| FileStore.ExtentFile.InsertRange | fuse/extent_ops.go:530-562 | opens exactly the zero range, past 2^63 - 1 too; the size grows by the range modulo 2^64; succeeds exactly for aligned offsets before EOF that pass the 64-bit guard |
| FileStore.ExtentFile.PunchHole | fuse/extent_ops.go:263-400 | zeroes exactly the range and frees exactly its whole blocks; a failed one zeroes exactly the partial blocks at its ends |
| FileStore.ExtentFile.ZeroRange | fuse/extent_ops.go:582-773 | zeroes exactly the range, growing the file unless told not to, and then the old tail; conserves blocks; never fails without a whole block in its range; a failed one changes a byte only to zero, in its range or the old tail |
| FileStore.ExtentFile.Preallocate | fuse/extent_ops.go:205-259 | maps every block of the range and changes no byte; growth appends zeros if and only if the uncovered part of the last block is zero |
| FileStore.ExtentFile.Fallocate | fuse/extent_ops.go:77-144 | which arguments each mode refuses and which it must accept, in the order the bits are looked at, and what each leaves in every byte of the file: zeros in a punched range, the range cut out by a collapse, zeros opened by an insert, zeros in a zeroed range and past the old end, the stored bytes under a plain fallocate; plain growth is the byte-string growth exactly over a zero tail; a failure changes a byte only to zero inside the range |
| FileStore.ExtentFile.FallocateMode | fuse/extent_ops.go:77-144 | the same against the operation on the byte string, with the cause of every failure |
| FileStore.ExtentFile.Step | fuse/extent_ops.go:77-144 | one operation with any answers: legal and supplied means it succeeds; its effect on the bytes and the tail, success or failure |
| FileStore.ExtentFile.Run | fuse/file_ops.go:79-178 | for every history, failures included, each operation leaves exactly its effect or a residue of it, every failure has a cause, blocks are conserved; without failures and from a zero tail the file is the byte string under the same operations |
| FileStore.FailedWriteShows | fuse/extent_ops.go:205-259 | a run: a 100-byte file, a write that runs out of blocks after its first, a plain fallocate; the file then shows the failed write's bytes |
| FileStore.WriteRunsOut | fuse/file_ops.go:374-513 | in that run the failed write leaves the file's bytes alone and its own first block behind them |
| FileImage.ImageExact | fuse/extent_ops.go:205-259 | an operation is the byte-string operation if and only if it uncovers nothing but zeros |
| FileImage.ImageApplies | fuse/extent_ops.go:1008-1022 | every operation but a growing preallocation is the byte-string operation whatever the tail holds |
| FileImage.DirtyTailExact | fuse/extent_ops.go:246-249 | the uncovered bytes are not zero exactly when the file ends inside a written block with a non-zero byte there |
| FileImage.CleanKept | fuse/extent_ops.go:936-1059 | a zero tail stays zero, and truncation to another size makes one |
| FileImage.StepClean | fuse/file_ops.go:374-513 | only a failed write past the end of file makes a zero tail dirty |
| FileImage.FailedReads | fuse/extent_ops.go:77-144 | a failed operation shows in the file only as its own data, or as zeros in the range it was to zero |
| FileImage.HistoryApplies | fuse/file_ops.go:79-178 | until such a failure every operation that succeeds, in any history, is the byte-string operation |
| FileImage.AllSucceed | fuse/file_ops.go:79-178 | a history without failures is the byte-string history |
| FileSteps.InsertGuardExact | fuse/extent_ops.go:530-562 | the EFBIG guard is right if and only if the file does not already exceed the device |
| FileSteps.ReadExtent | fuse/file_ops.go:79-178 | one extent's share of a read leaves exactly the bytes of the extents so far |
| FileSteps.WriteOneBlock | fuse/file_ops.go:374-513 | one block write patches exactly its segment and takes a fresh block exactly in a hole |
| FileSteps.WriteBlocks | fuse/file_ops.go:374-513 | the block loop patches exactly the data and keeps every other mapping; it fails exactly at the first hole without a fresh block, and then shows exactly what landed before |
| FileSteps.ShortExact | fuse/file_ops.go:374-513 | the fresh blocks are enough exactly when there are as many as holes; otherwise the loop stops at the hole before which as many holes lie |
| FileSteps.AbortedWrite | fuse/file_ops.go:374-513 | a write whose list is dropped shows exactly in the blocks the old list showed |
| FileSteps.FailedTruncate | fuse/extent_ops.go:936-1059 | a shrink whose index rebuild fails has zeroed exactly the tail of its new last block |
| FileSteps.ZeroBlockRange | fuse/file_ops.go:685-697 | zeroes exactly the given bytes of a file block, on the device too; a hole, or an unwritten block if asked to skip those, is not touched |
| FileSteps.ZeroEofTail | fuse/file_ops.go:714-723 | zeroes exactly from the end of file to the end of its block, and skips the same blocks |
| FileRanges.AllocUnwrittenHole | fuse/extent_ops.go:161-198 | tiles the hole exactly with unwritten extents from the granted runs |
| FileRanges.FillHoles | fuse/extent_ops.go:205-259 | fills exactly the holes of the range with unwritten blocks |
| FileRanges.ZeroRegion | fuse/extent_ops.go:582-773 | zeroes exactly the byte range |
| FileRanges.ConvertRange | fuse/extent_ops.go:582-773 | the range becomes mapped and unwritten, mapped blocks keep their device blocks, the rest of the map is untouched |
| FileRanges.ZeroRangeBlocks | fuse/extent_ops.go:582-773 | both halves of a zero-range give zeros exactly in the range and, when it grows the file past the old last block, in the old tail; failing or not, through the old list a byte is unchanged or zeroed there |
| FileRanges.ZeroBoundaries | fuse/extent_ops.go:263-400 | zeroes exactly the partial blocks at the ends of a punch |
| Extents.LookupExtent | fuse/file_ops.go:831-849 | binary search finds the covering extent if and only if there is one |
| Extents.InsertExtentSorted | fuse/file_ops.go:855-889 | the merged list maps exactly the old blocks plus the new extent and stays sorted |
| Extents.SplitUnwrittenAt | fuse/file_ops.go:808-825 | exactly one block turns written |
| Extents.FreeExtentRange | fuse/extent_ops.go:1108-1142 | the range becomes a hole, the rest is untouched, and the freed runs are exactly its device blocks, once each |
| Extents.ShiftExtentsDown | fuse/extent_ops.go:416-486 | the map after a collapse, with exactly the removed blocks freed |
| Extents.ShiftExtentsUp | fuse/extent_ops.go:416-486 | the map after an insert |
| Extents.InsertThenCollapse | fuse/extent_ops.go:416-486 | collapsing an inserted range restores the map and frees nothing |
| Extents.FoldSorted | fuse/extent_ops.go:416-486 | folding through the sorted insert keeps the map |
| Runs.AddRunSpec | fuse/runlist.go:46-58 | an accumulated run adds exactly its blocks and its count |
| Runs.AddBlocks | fuse/runlist.go:33-67 | accumulated blocks are exactly those added, counted with multiplicity |
| BtreeProofs.StoredTreeWalks | briefs/btree.go:345-445 | a stored tree walks back to its extents in order, visits exactly its nodes and passes every fsck check |
| BtreeExact.WalkSound | briefs/btree.go:345-445 | a walk that succeeds has walked such a branch |
| BtreeExact.WalkComplete | briefs/btree.go:345-445 | every such branch is walked, whatever was visited before |
| BtreeExact.WalkExact | briefs/btree.go:345-445 | on any device, cyclic ones included, the strict walk succeeds exactly when a finite tree hangs from the root, at most 17 nodes deep, with counts in bounds, sorted leaves and no node twice, and it reports that tree's nodes and extents in order |
| BtreeExact.CrossLeafExact | cmd/fsck/btree_verify.go:68-148 | comparing each leaf with the one before is comparing the whole list |
| BtreeExact.VisitsExact | cmd/fsck/btree_verify.go:68-148 | every node of a walked tree passes exactly when leaves are at level 0 and each index node is one above its index children, has no null child and ascending high keys, of which only the last may be 0 |
| BtreeExact.FsckExact | cmd/fsck/btree_verify.go:68-148 | on any device fsck accepts exactly when a tree the walk allows hangs from the root whose nodes pass its checks, with offsets ascending through all leaves and as many extents as the inode says |
| BtreeBuild.ChunkBtreeExtents | briefs/btree_build.go:23-33 | chunks of 126, in order, concatenating to the list |
| BtreeBuild.BuildBtreeLeaves | briefs/btree_build.go:63-91 | one leaf per chunk, each naming its successor; fails exactly when blocks run out or the list is empty |
| BtreeBuild.EvenSplit | briefs/btree_build.go:106-169 | every group of the even split holds 2 to 254 children and together they hold all |
| BtreeBuild.BuildLevel | briefs/btree_build.go:106-169 | one level pass builds the index nodes of the groups and takes exactly the next blocks |
| BtreeBuild.BuildBtreeIndex | briefs/btree_build.go:106-169 | terminates; the written nodes store one tree over the forest with the same extents and exactly the new blocks; fails exactly when blocks run out |
| BtreeBuild.DepthFits | briefs/btree.go:345-445 | 64-bit offsets keep every built tree within the walker's depth limit |
| BtreeBuild.BuiltWalks | cmd/fsck/btree_verify.go:68-148 | a built index walks back to exactly the list, visits exactly its nodes, has 2 to 254 children per index node and is accepted by fsck |
| BtreeRoute.PicksKid | briefs/btree_build.go:140-169 | in one index node that child is the one that holds the extent |
| BtreeRoute.RouteFinds | briefs/btree.go:106-112 | the same of every stored tree |
| BtreeRoute.BuiltRoutes | briefs/btree_build.go:140-169 | taking in each index node the first child whose high key is above an offset, or the last, leads from the root of a built index to the leaf that holds the last extent at or before that offset |
| BtreeBuild.BuildTree | briefs/btree_build.go:63-182 | leaves, index and writes together build the tree, thread its leaves and touch no other block; fails exactly when blocks run out |
| BtreeRebuild.ReuseCount | fuse/extent_rebuild.go:223-334 | keeps the longest common prefix without its last chunk |
| BtreeRebuild.ReuseKeepsPrefix | fuse/extent_rebuild.go:247-257 | the count of kept leaves is one less than the number of leading leaves whose content the new list repeats, or 0 |
| BtreeRebuild.RebuildLocalized | fuse/extent_rebuild.go:223-334 | the new tree indexes exactly the new list; kept are all but the last of the leading old leaves that already hold their 126 extents of it; old nodes are the disjoint union of kept and freed, new ones of kept and fresh; no old block is rewritten; the cached tree is what a walk collects; the leaf chain is intact exactly when no leaf is kept |
| BtreeRebuild.RebuildExtentIndexWrite | fuse/extent_rebuild.go:216-334 | reading the index back yields the new list; it is inline exactly when the list is empty, or was inline and has at most 8 extents, and then every old node is freed; otherwise the freed nodes are all but the kept leading leaves; no old node is rewritten; enough blocks mean success |
| BtreeRebuild.ThreadedIff | fuse/extent_rebuild.go:247-283 | all links but the last kept leaf's are right, so a threaded chain stays threaded if and only if nothing is kept |
| BtreeRebuild.AppendKeepsLeaf | fuse/extent_rebuild.go:247-257 | appending to two or more full leaves keeps a leaf |
| BtreeRebuild.CachedIsWalked | fuse/extent_rebuild.go:313-321 | the cached leaves and index blocks are those a walk of the new tree collects |
| BtreeRebuild.OldPartition | fuse/extent_rebuild.go:323-333 | the old nodes are the disjoint union of the kept leaves and the freed runs |
| Shield.ReserveExact | fuse/meta_shield.go:42-49 | for every count the reserve covers the builder's nodes if and only if the index nodes leave at most 506 slots unused |
| Shield.SlackCounts | briefs/btree_build.go:106-169 | index nodes, children and unused slots add up |
| Shield.ReserveCovers | fuse/meta_shield.go:42-49 | two index levels are always covered |
| Shield.ReserveThirdLevel | fuse/meta_shield.go:42-49 | three index levels are covered if and only if the leaves exceed 253 times the lower node counts less one |
| Shield.ReserveFails | fuse/meta_shield.go:42-49 | on every height past the second one leaf too many for the lower tree outgrows the reserve |
| Shield.ReserveNotMonotone | fuse/meta_shield.go:42-49 | the reserve fails, holds again and fails again as the count grows |
| Shield.CountUnwrittenBlocks | fuse/meta_shield.go:52-60 | counts exactly the unwritten file blocks |
| Shield.Reserve.SetUnwrittenRes | fuse/meta_shield.go:75-92 | the shield stays the sum of the reserves of the tracked inodes, without underflow |
| Shield.Reserve.constructor | fuse/meta_shield.go:75-92 | an empty table has an empty shield |
| JournalBlock.LittleEndianSound | briefs/journal_replay.go:223-252 | the little-endian headers have the soundness the proofs ask of a codec |
| JournalBlock.LittleEndianLayout | briefs/journal_replay.go:215-252 | the four header words lie at bytes 0, 4, 8 and 12, least significant byte first |
| JournalBlock.IterateJournalBlockRecords | briefs/journal_replay.go:126-143 | the cursor loop computes the recursive reading of a block, overflow included |
| JournalBlock.IterateSound | briefs/journal_replay.go:126-143 | what is read is laid out so, up to an overflowing record |
| JournalBlock.IterateComplete | briefs/journal_replay.go:126-143 | whatever is laid out so is read so, or overflows there |
| JournalBlock.IterateExact | briefs/journal_replay.go:126-143 | whatever the block holds it reads as the records laid out from byte 16 on, header then payload, as many as its header counts or as have room for a header, if and only if none runs past its end; otherwise the first that does is reported |
| JournalBlock.AppendHolds | briefs/journal_write.go:351-369 | appending a record that fits extends what the block holds |
| JournalBlock.ReadBack | briefs/journal_replay.go:126-143 | a block reads back as many records as it holds, in append order, each with its type, its data, its length and the checksum of both |
| JournalBlock.PayloadLimit | briefs/journal_write.go:304-370 | a record reads back from a fresh block if and only if its payload is at most 4064 bytes |
| RingState.WalkJournalRing | briefs/journal_replay.go:92-118 | visits the blocks from log_start up to log_end in ring order, once around at most, stopping at an unknown magic |
| RingState.FlushBounds | briefs/journal_write.go:401-445 | a record-block write never lands on the checkpoint block or on records that are neither synced nor retired |
| RingState.NumberNext | briefs/journal_write.go:314-329 | one more block keeps the lap's sequence numbers consecutive, past 2^32 - 1 too |
| RingState.CommitCovers | briefs/journal_write.go:401-467 | a commit covers exactly the live records, unless the ring was full, then every pending one |
| RingState.SyncCommits | briefs/journal_write.go:401-527 | a sync leaves nothing pending and commits exactly what it does not retire |
| RingState.FlushKeepsPending | briefs/journal_write.go:313-348 | a full block changes nothing pending unless the ring filled up and was retired |
| RingState.HistoryTail | briefs/journal_write.go:304-370 | the live and pending records are the tail of the append history |
| RingState.NothingPendingWhenFull | briefs/journal_write.go:406-432 | the write position is back at log_start exactly for an empty or full lap, and a full lap is committed |
| JournalReplay.VisitBlock | fuse/journal_replay.go:156-207 | whatever the block holds: it is taken exactly when no record runs past its end, every type is 1 to 12 and every checksum is 0 or right, and then gives every record |
| JournalReplay.VisitWritten | fuse/journal_replay.go:156-207 | a block of the writer's yields exactly its records if and only if none is oversized |
| JournalReplay.WalkOrder | briefs/journal_replay.go:92-118 | the walk passes the committed blocks in order and at most the checkpoint block besides |
| JournalReplay.WalkJournal | fuse/journal_replay.go:156-207 | replay succeeds if and only if no committed payload exceeds 4064 bytes, and then gives as many records as are committed, the i-th with the type, data, length and checksum of the i-th committed one |
| JournalRing.Journal.constructor | briefs/journal_write.go:107-131 | a clean log starts with an empty history |
| JournalRing.Journal.FlushBlock | briefs/journal_write.go:314-329 | writes the current block at a safe position, advances past the checkpoint block and starts a fresh block with the next sequence number; the blocks of a lap carry consecutive ones |
| JournalRing.Journal.CommitPending | briefs/journal_write.go:434-467 | the commit point covers every pending record; exactly a full ring ends with log_start == log_end |
| JournalRing.Journal.CheckpointLocked | briefs/journal_write.go:589-675 | retires the log, keeps the history, keeps the pending block when told not to flush it, and leaves the checkpoint magic and the block's sequence number in the last block |
| JournalRing.Journal.RetireFull | briefs/journal_write.go:406-432 | a full ring, and nothing else, is retired before the pending block is written |
| JournalRing.Journal.RetireDue | briefs/journal_write.go:511-526 | retires exactly when a periodic checkpoint is due or the ring is about to fill |
| JournalRing.Journal.SyncLocked | briefs/journal_write.go:401-527 | the whole effect of a sync on the log; nothing stays pending and the history is kept; the log ends hidden, log_start == log_end over live records, if and only if the next write position was log_start and no checkpoint was due |
| RingState.SyncHides | briefs/journal_write.go:511-526 | the same of the log as a state machine |
| RingState.SyncKeeps | briefs/journal_write.go:401-527 | with room for three more blocks and no checkpoint due a sync retires nothing |
| JournalRing.FillRing | briefs/journal_write.go:401-527 | on a ring of any size as many one-record syncs as it has record blocks commit every record and leave none readable |
| JournalRing.Journal.MakeRoom | briefs/journal_write.go:313-348 | after a flush the ring has room, retired if it had filled up; it is never exhausted |
| JournalRing.Journal.AppendRecord | briefs/journal_write.go:351-369 | appends exactly the record |
| JournalRing.Journal.WriteRecord | briefs/journal_write.go:304-370 | accepts exactly the types 1 to 12 with a payload, and the history grows by exactly that record; one that fits its block moves no position |
| JournalRing.Journal.ReadLog | fuse/journal_replay.go:156-207 | replay of the committed range succeeds if and only if no live payload exceeds 4064 bytes, and then gives as many records as are live, the i-th with the type, data, length and checksum of the i-th live one; equal bounds read as nothing |
| JournalRing.Journal.Run | briefs/journal_write.go:304-675 | every run keeps the invariant, every record-block write is safe, and the history is the accepted records in order; without a checkpoint and with room in the ring nothing is retired, and after a sync nothing is pending |
| JournalRing.SyncedReadsBack | fuse/journal_replay.go:156-207 | a run over a clean log that ends in a sync, with no checkpoint asked for or due and room in the ring, reads back every record it accepted, in order, with type and data, if and only if no payload exceeds 4064 bytes |
| WriteBack.StepKeeps | fuse/cache.go:127-152 | every step of every thread keeps the invariant |
| WriteBack.EveryInterleaving | fuse/cache.go:285-340 | in every interleaving, data written straight to the device included, a block's readers see its latest write unless the previous owner's copy shadows it, and each block is in exactly one place |
| WriteBack.LastWriteSeen | fuse/cache.go:127-152 | in every run, whatever is interleaved, a block reads as the buffer of the last store or direct write to it among the steps, unless the copy of its previous owner shadows it |
| WriteBack.LastWriteRead | fuse/cache.go:142-152 | and is not shadowed unless a drain is applying its frees |
| WriteBack.NeverBlocked | fuse/cache.go:127-152 | a sync in progress blocks no store, no write, no allocation and no deferred free |
| WriteBack.SyncGoesOn | fuse/cache.go:285-340 | a sync in progress always has a next step that does not fail |
| WriteBack.SyncEnds | fuse/cache.go:285-340 | each step of a sync brings it nearer its end and after its snapshot no other step sets it back |
| WriteBack.OwnedUntilFreed | fuse/cache.go:178-189 | a block belongs to the one it was allocated to until that one frees it |
| WriteBack.WaitsUntilFreed | fuse/cache.go:178-189 | a freed block waits, pending or taken by a drain, until a drain frees it: no free is lost and none is early |
| WriteBack.SafeSteps | fuse/cache.go:285-340 | a drain writes no free block and none whose owner writes it directly, an allocation returns no pending one, only a sync frees and only what is durable, a failed drain puts every free back |
| WriteBack.BetweenSyncs | fuse/cache.go:178-189 | between syncs blocks are exactly free, owned or pending, free ones have no deferred copy, and every block reads as its latest store |
| WriteBack.SyncMeta | fuse/cache.go:285-340 | the drain succeeds exactly when no write fails, and then frees exactly the pending blocks; a failed one changes nothing but the device |
| WriteBack.DrainAll | fuse/cache.go:313-326 | writes the snapshot or stops at the first failure and restores the frees |
| WriteBack.ApplyFrees | fuse/cache.go:327-329 | applies exactly the taken frees |
| WriteBack.HiddenIff | fuse/cache.go:142-152 | a block reads wrong if and only if a copy that differs shadows its owner's direct write |
| WriteBack.VisibleIff | fuse/cache.go:313-338 | a new owner reads back every direct write if and only if the drain that freed the block no longer holds a copy of it |
| WriteBack.ShadowEnds | fuse/cache.go:330-338 | only a drain that is applying its frees shadows a block, and its last step ends every shadow |
| WriteBack.ReachFreed | fuse/cache.go:285-340 | an allocation, a store, a logged free and a deferred free lead from a free block to the state the window starts from |
| WriteBack.ReachWritten | fuse/cache.go:285-340 | the state in which the window opens is reachable |
| WriteBack.ReachRewritten | fuse/cache.go:285-340 | from there a new owner gets the block and writes it |
| WriteBack.ShadowWindow | fuse/cache.go:285-340 | it then reads the old copy, and its own once the copies are deleted |
| Words.TrailingZeros | fuse/fs.go:311-373 | the lowest set bit, 64 if none |
| Words.RunLength | fuse/fs.go:311-373 | the two bit counts measure the run of set bits |
| AllocCore.AllocMarkAllocated | briefs/allocator_core.go:26-51 | removes exactly the block from the free set, keeps the pyramid and the count, and reports whether it was free |
| AllocCore.AllocMarkFree | briefs/allocator_core.go:58-85 | adds exactly the block if it is in range |
| AllocCore.AllocMarkFreeRun | briefs/allocator_core.go:97-136 | adds exactly the clipped run, word by word, and counts it |
| AllocCore.FreeOneByOne | briefs/allocator_core.go:87-96 | the reference: n single frees, and how many of them changed something |
| AllocCore.BulkEqualsSingles | briefs/allocator_core.go:87-136 | the bulk free equals the single frees word for word on all levels, and reports the same count |
| AllocCore.Canonical | briefs/allocator_core.go:26-136 | the free set determines all three levels and the count |
| RunScan.ScanMaximalRuns | fuse/fs.go:311-373 | with no minimum lists exactly the maximal free runs in order; with one stops at the first long enough |
| RunScan.ListedIsMaximal | fuse/fs.go:311-373 | every listed run is a maximal free run |
| RunScan.MaximalIsListed | fuse/fs.go:311-373 | every maximal free run is listed |
| RunScan.LeastStart | fuse/fs.go:225-283 | the first run that is long enough starts at the least start of n free blocks |
| RunScan.NoneLongEnough | fuse/fs.go:225-283 | if no run is long enough there are no n free blocks in a row |
| Allocator.DescendRepair | fuse/fs.go:149-179 | finds the first word with a free block on a pyramid; a repair clears exactly the summary bit it followed to an empty word |
| Allocator.TryAllocBlock | fuse/fs.go:128-203 | whatever the summaries hold, only a free block is taken; on a pyramid metadata fails exactly when nothing is free and data exactly when no more than the shield is, and what is taken is the least free block |
| Allocator.ReserveBlockZero | fuse/fs.go:288-301 | removes exactly block 0 |
| Allocator.TryAllocBlocks | fuse/fs.go:225-283 | takes the least start of n free blocks; gives 0 exactly when n is 0, there are no n free blocks in a row, or the free blocks exceed the shield by fewer than n |
| Allocator.Harvest | fuse/fs.go:402-480 | takes leading parts of the found runs, as much as wanted |
| Allocator.TryAllocRunsUpTo | fuse/fs.go:402-480 | disjoint formerly free runs totalling exactly the least of the request and what the free blocks exceed the shield by |
| Allocator.Pool.constructor | fuse/fs.go:58-83 | a consistent bitmap makes a valid pool |
| Allocator.Pool.AllocBlock | fuse/fs.go:99-125 | the least free block, or nothing: for metadata exactly when nothing is free, for data exactly when no more than the shield is; removed from the free set, and nothing else changes |
| Allocator.Pool.AllocBlocks | fuse/fs.go:213-222 | the least run of n, or nothing exactly when there is none or the free blocks exceed the shield by fewer than n |
| Allocator.Pool.AllocRunsUpTo | fuse/fs.go:387-396 | runs out of the free set, removed from it, as many blocks as asked for or as the free ones exceed the shield by |
| Allocator.Pool.FreeBlock | fuse/fs.go:510-521 | frees exactly the block |
| Allocator.Pool.FreeRun | fuse/fs.go:531-548 | frees exactly the clipped run |
| Allocator.Pool.ReserveBlock | fuse/fs.go:551-562 | reserves exactly the block |
| Allocator.Pool.Step | fuse/fs.go:99-562 | each operation's effect on the free set and what it hands out |
| Allocator.Pool.Run | fuse/fs.go:99-562 | over every sequence of operations the pyramid holds, the count is the number of free blocks, and the free set is the operations' effects in order |
| Allocator.NeverTwice | fuse/fs.go:99-562 | in every history a block is handed out again only after a free of it, alone or in a run, in between |
| Allocator.DataAboveShield | fuse/fs.go:128-147 | in every history a data request that gets blocks takes no more than the free ones exceed the shield by |
| Allocator.ShieldKept | fuse/fs.go:128-147 | data requests and frees alone never bring the free blocks below the shield, so a metadata request still gets a block |
| TrieTree.LinkedChained | fuse/trie_mutate.go:530-569 | linking a child keeps every sibling chain |
| TrieTree.UnlinkedChained | fuse/trie_mutate.go:629-655 | unlinking a child keeps every sibling chain |
| TriePaths.FewKids | fuse/trie.go:109-127 | no sibling chain of a tree reaches the scan's cap |
| TriePaths.AddDir | fuse/trie_mutate.go:573-597 | a new slot adds exactly its own entry |
| TriePaths.DropDir | fuse/trie_mutate.go:629-655 | unlinking a slot drops exactly its own entry |
| TriePaths.SetDir | fuse/trie_mutate.go:694-704 | rewriting a slot changes exactly the entry of its path |
| TrieOps.ScanSiblings | fuse/trie.go:109-127 | finds the child with the byte if and only if the path exists, with its predecessor |
| TrieOps.CreateChild | fuse/trie_mutate.go:573-597 | links the new slot at the end of the chain |
| TrieOps.TrieLookup | fuse/trie.go:11-80 | finds exactly the entry of the directory map |
| TrieOps.SplitLeaf | fuse/trie_mutate.go:722-786 | splitting a leaf changes no entry |
| TrieOps.InsertLast | fuse/trie_mutate.go:801-898 | the last byte of an insert: EEXIST exactly for a present name, otherwise exactly the new entry |
| TrieOps.TrieInsert | fuse/trie_mutate.go:801-898 | adds exactly the entry; EEXIST and ENAMETOOLONG exactly when due; ENOSPC only without slots or name room; every failure keeps the directory; no empty node is left unless space ran out |
| TrieOps.TrieUpdateEntry | fuse/trie_mutate.go:903-937 | rewrites exactly a present entry, ENOENT otherwise |
| TrieOps.DropChild | fuse/trie_mutate.go:629-655 | removes exactly the childless slot and its entry |
| TrieOps.CollapseAncestry | fuse/trie_mutate.go:1014-1061 | pruning changes no entry, frees only, and leaves no empty intermediate node on the way but perhaps the root |
| TrieOps.CollapseRoot | fuse/trie_mutate.go:1014-1061 | an empty root is released without changing an entry, and then no empty node is left |
| TrieOps.RemoveLast | fuse/trie_mutate.go:943-1008 | the last byte of a removal removes exactly the name |
| TrieOps.TrieRemove | fuse/trie_mutate.go:943-1008 | removes exactly the name, ENOENT exactly when absent, and leaves no empty intermediate node where there was none |
| TrieOps.OnTheWay | fuse/trie_mutate.go:801-898 | every node on the way to a slot has a child |
| TrieOps.NothingLeft | fuse/trie_mutate.go:1014-1061 | without empty intermediate nodes, a directory holds no slot if and only if it holds no entry |
| TrieOps.StepDown | fuse/trie_mutate.go:801-898 | one byte of an insert's way down changes no entry and ends on an intermediate node |
| TrieOps.DirTrie.Lookup | fuse/trie.go:11-80 | a lookup in any reachable trie is the map lookup |
| TrieOps.DirTrie.Step | fuse/trie_mutate.go:801-1061 | which error each operation gives and when, with names over 255 bytes refused; success sets or removes exactly the name, and a failure changes no entry; as on a plain map |
| TrieOps.DirTrie.Run | fuse/trie_mutate.go:801-1061 | every sequence of operations gives the map and the errors of the same sequence on a map, and under each name what the last operation that succeeded on it put there; from an empty directory and without ENOSPC it leaves no empty node, and no slot once every name is removed |
| TrieOps.AllSettled | fuse/trie_mutate.go:801-1061 | the same law of a sequence on a plain map, read off the operations and their results |
| TrieWalk.TurnDescends | briefs/trie_walk.go:112-153 | each turn uses up fuel, whatever the slots hold |
| TrieWalk.TurnOnce | briefs/trie_walk.go:112-153 | no turn reports a node a second time |
| TrieWalk.SecondReports | briefs/trie_walk.go:112-153 | a leaf that branches, and no other node, is reported a second time |
| TrieWalk.TurnRest | briefs/trie_walk.go:112-153 | each turn reports the next item of what the recursion still has to report |
| TrieWalk.CollectExact | briefs/trie_walk.go:199-228 | the children collected are exactly the sibling chain, cut at an unreadable slot or after 1024 |
| TrieWalk.Next | briefs/trie_walk.go:112-153 | terminates on any contents, reports no node twice, only what is reachable, and schedules everything below what it reports |
| TrieWalk.WalkTrie | briefs/trie_walk.go:253-286 | on any contents it terminates, visits nothing twice, and its first visits are exactly the readable references reachable through child chains of at most 1024; exactly the leaves with children are visited a second time; the order is that of the recursion, node, second visit, children; on a tree that is every slot |
| TrieWalk.TreeReachable | briefs/trie_walk.go:199-228 | all of a tree is reachable through child chains under the cap |
| TrieWalk.ReadDir | fuse/trie.go:162-177 | lists exactly the directory's entries, each once |
| TrieWalk.TrieWalker.constructor | briefs/trie_walk.go:80-91 | a fresh walker has reported nothing |
| TrieWalk.TrieWalker.Step | briefs/trie_walk.go:112-153 | each report is new, and when there are no more the reports are those of the recursion, in its order: exactly what is reachable and readable |
| NameHeap.LiveFits | fuse/trie_mutate.go:102-169 | live names that do not overlap never exceed the heap mark |
| NameHeap.Gather | fuse/trie_mutate.go:102-169 | collects the live entries if and only if each lies inside the heap |
| NameHeap.Pack | fuse/trie_mutate.go:102-169 | puts them back without gaps |
| NameHeap.CompactNames | fuse/trie_mutate.go:102-169 | compacts if and only if the heap is used and its entries fit, else changes nothing |
| NameHeap.CompactedWellFormed | fuse/trie_mutate.go:102-169 | a compacted page has no overlap, no gap and the same live slots |
| NameHeap.CompactionKeepsNames | briefs/trie_disk.go:125-148 | every live slot reads the same name |
| NameHeap.ReadNameExact | briefs/trie_disk.go:125-148 | a name reads back if and only if its length, a zero and its bytes lie name_offset bytes before the end of the page and name_len is two more than its length |
| NameHeap.StoreName | fuse/trie_mutate.go:482-526 | the slot reads the new name and all others theirs; ENAMETOOLONG exactly over 255 bytes; ENOSPC if and only if the slot's own entry is too small and the live names and the new one do not fit 1772 bytes together |
| NameHeap.Recompact | fuse/trie_mutate.go:178-206 | the retry on a full heap keeps every name and moves the mark to the live total |
| XattrPlan.AddContBlocks | fuse/xattr.go:547-559 | the rest of a value is cut into full fragments |
| XattrPlan.AddEntry | fuse/xattr.go:521-560 | one more attribute keeps the plan |
| XattrPlan.InlineChoice | fuse/xattr.go:531-543 | the inline length fits, and overflows only by filling the block |
| XattrPlan.BuildXattrChain | fuse/xattr.go:504-566 | every attribute in order, no payload over 4012 bytes, no block with more than 501 entries, an overflowing entry last and filling its block, each continuation block carrying on where the one before it stopped, no block started early, no more blocks than the values need; refuses exactly chains over 1024 blocks |
| XattrCodec.SerializeXattrBlock | fuse/xattr.go:570-628 | the block holds exactly the planned names, inline parts and lengths; the first name follows the header and table, each next one the padded name and inline part before it, and the rest of the block is zeros |
| XattrCodec.EntryBytes | fuse/xattr.go:570-628 | where an entry's name and inline value lie in a rendered block |
| XattrCodec.TakeConts | fuse/xattr.go:464-482 | the following blocks complete the value |
| XattrCodec.LoadEntry | fuse/xattr.go:440-485 | an entry loads as what its length field keeps of it |
| XattrCodec.LoadXattrEntries | fuse/xattr.go:418-488 | loads every attribute in order |
| XattrCodec.KeptIff | fuse/xattr.go:50-55 | attributes come back unchanged if and only if every value has at most 65535 bytes |
| XattrCodec.WalkXattrChain | fuse/xattr.go:381-413 | ends on any contents, and succeeds exactly on a well-formed chain, which it loads |
| XattrCodec.ChainUnique | fuse/xattr.go:381-413 | there is at most one chain from a head |
| XattrCodec.WriteChain | fuse/xattr.go:570-628 | the written chain is linked and rendered |
| XattrCodec.StoreAndLoad | fuse/xattr.go:418-628 | storing and loading returns every attribute as its length field keeps it; ENOSPC exactly for plans over 1024 blocks or longer than the blocks the allocator has |
| XattrCodec.LargestValue | fuse/xattr.go:131-150 | one attribute of 65536 bytes is stored and comes back empty |
| XattrStore.EditLookup | fuse/xattr.go:214-244 | an edit sets or removes exactly the named attribute |
| XattrStore.EditDistinct | fuse/xattr.go:214-244 | names stay distinct |
| XattrStore.KeptEdit | fuse/xattr.go:214-244 | what a request that succeeds leaves under each name |
| XattrStore.LastRequestWins | fuse/xattr.go:206-293 | over every history each attribute reads as the last successful request for it left it |
| XattrStore.XattrFile.Get | fuse/xattr.go:82-103 | exactly the stored value, ENODATA exactly when absent, ERANGE for a long name |
| XattrStore.XattrFile.List | fuse/xattr.go:107-124 | exactly the names, in order |
| XattrStore.XattrFile.Set | fuse/xattr.go:131-293 | ERANGE exactly for names over 255 bytes, else E2BIG exactly for values over 65536; EEXIST exactly for a create of a present name, ENODATA exactly for a replace or removal of an absent one; ENOSPC exactly for a chain over 1024 blocks or blocks too few; success changes what is read under the name, and under no other; every failure changes nothing |
| XattrStore.XattrFile.SetLocked | fuse/xattr.go:206-293 | the same against the edit of the ordered list |
| XattrStore.XattrFile.Run | fuse/xattr.go:131-293 | every history of requests, with any blocks from the allocator, is the ordered map under the same requests |
| Replay.Twice | fuse/journal_replay.go:211-298 | applying a log twice leaves the bitmaps of applying it once |
| Replay.LastWins | fuse/journal_replay.go:587-628 | a bit is what the last record naming it says, and unchanged if none does |
| Replay.InodeAfter | fuse/journal_replay.go:219-232 | an inode is allocated after a log exactly when the last record naming it is an allocation, or none names it and it was allocated before |
| Replay.DataAfter | fuse/journal_replay.go:211-298 | a data block is free after a log exactly when the last record naming it frees an extent or a trie page, or none names it and it was free before |
| Replay.FreeExact | fuse/journal_replay.go:599-605 | a free record frees its blocks of the region whatever was free before, if and only if its run starts in the region, ends before it or the region is empty |
| Replay.StraddlingFree | fuse/journal_replay.go:587-605 | a run across the region's start that its allocation record reserves and its free record does not free |
| Replay.SlotForgets | fuse/journal_replay.go:473-583 | magic and generation never change, and what a log leaves in a slot does not depend on what it overwrites |
| Replay.SlotTwice | fuse/journal_replay.go:473-583 | replaying a log twice leaves each slot no directory update names as replaying it once |
| Replay.ResetForm | fuse/journal_replay.go:388-459 | the last directory update that succeeds puts the slot back to what it was before the first snapshot or directory update, with the new root; later records apply in order |
| Replay.ReplayedTwice | fuse/journal_replay.go:388-583 | replaying a log twice, with the same trie roots, leaves every slot as replaying it once |
| Replay.Replayer.constructor | fuse/journal_replay.go:69-147 | replay starts with nothing cached |
| Replay.Replayer.ReplayInodeFull | fuse/journal_replay.go:473-526 | a snapshot is restored exactly into an armed slot of its generation, and the first one stashes the slot before it |
| Replay.Replayer.ReplayInodeUpdate | fuse/journal_replay.go:536-583 | only the metadata of an armed slot of the right generation changes |
| Replay.Replayer.ReplayDirUpdate | fuse/journal_replay.go:388-459 | the first cached copy with the new root is written back, exactly for an armed parent |
| Replay.Replayer.ReplayExtentAlloc | fuse/journal_replay.go:587-595 | reserves exactly the run's blocks inside the data region |
| Replay.Replayer.ReplayExtentFree | fuse/journal_replay.go:599-605 | frees exactly the clipped run, or nothing when it starts below the region |
| Replay.Replayer.ApplyRecord | fuse/journal_replay.go:211-298 | record by record: an inode record removes its bit from the free inodes or adds it, by number and kind, and nothing else; a trie record its block of the region; extent records their runs; the slot records their slot; a record changes no bitmap or slot it does not name |
| Replay.Replayer.Run | fuse/journal_replay.go:69-298 | over every log no slot changes generation or magic; an inode is allocated after it exactly when the last record naming it allocates it, or none names it and it was allocated before, and so each data block; every slot is what the records make of it; it stops only at a failing directory update |

## Left out

- Inline-data files and their promotion to extents; unknown fallocate flag bits; timestamps, privilege stripping, immutable and append-only flags; int64 overflow checks on the request offset.
- Device and fsync errors, except where a failed write is the subject (WriteBack, failed writes and rebuilds).
- Rollback of an aborted operation's blocks: a failed operation keeps the free set, and which blocks the allocator had handed out in between is not tracked.
- Checksums: a codec with a soundness property stands for the CRC and the header bytes.
- The tolerant walk mode of fsck, fsck's repairs, mkfs, and the command-line tools.
- RingState.CheckpointBlock: states the block header only; the checkpoint record's payload (sequence, free counts, trie root) is not modelled.
- JournalRing.Journal.WriteRecord: does not model payloads of 2^32 - 16 bytes and more, where the 32-bit record size wraps; the counters since the last checkpoint do not wrap either.
- The order of data drain, superblock write and metadata flush inside one sync is the step order of WriteBack; the journal class treats a sync as one step.
- WriteBack.SyncMeta: one drain in flight; two concurrent drains, the fsync-path drain without a commit point and the reclaim retry of the allocator are not modelled.
- Allocator dirty tracking, the write-out of the bitmap pools, TrimFreeRuns, and the shift-and-mask form of words (a word is its set of bits).
- Allocator.TryAllocBlock: with stale summary bits it is stated only that a free block is taken or nothing changes below the summaries; that a free block is then found is not claimed, because the scan moves to the next top word after a repair.
- Trie page placement and the partial-page pool: slots are a map, fresh slots are granted; the slot depth field and the page cache and note hooks of the walker are not modelled. Name storage of a page is its own model (NameHeap).
- TrieOps.DirTrie.Run: that no empty node is left is stated for histories without ENOSPC and without inserts of the empty name; an insert that runs out of space returns with the intermediate nodes it had made, and the rollback of the block cache by its caller is not modelled.
- The next_leaf chain is modelled for the builder and the localized rebuild only.
- Attribute namespaces, the ACL side of setXattr, its read-only check, and the journaling and freeing of attribute chains.
- Replay of symlink and attribute contents, the reserve-only first pass, link-count reconciliation; the trie operations of a directory update are its parameters, so idempotence is stated for the same trie roots.
- JournalRing.Journal.constructor: opens a clean log only; over a live range a mount replays it first and then marks it clean.
- FileStore.ExtentFile.Run: ends before an insert that would take the size past 2^63 - 1, since what the signed size arithmetic does after it is not modelled; the insert itself is.
- WriteBack.EveryInterleaving: an owner uses one route for a block, the deferred map or the device; blocks of the inode table, which are written by both, are not allocated blocks and not modelled.
- FUSE glue, mount options, quota of open handles, locking.
