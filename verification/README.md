# planckOS: heap, lock, keyboard ring and FAT32 in Dafny

A model of the parts of the planckOS kernel that keep state and promise something about it, with
proofs about every input, every run and every interleaving.

* **Heap** (`HeapLayout`, `HeapChunkOps`, `HeapState`, `HeapCoalesce`, `HeapOps`, `HeapCore`, `HeapCheck`,
  `HeapBlocks`, `HeapRuns`, `HeapForged`, `HeapSpares`). Memory is a map from word addresses to 64-bit words. The class `HeapCore`
  reads and writes header and footer words as the code does. Each method is proved equal to an
  operation on lists of (size, used) chunks, one list per segment: first fit with splitting, and
  merging with free neighbours. The invariant `HeapState.Inv` says that the words are exactly the tags of
  the lists, that segments are fenced and apart, that no two neighbours are free, and that the counters
  are sums over the lists. Client stores into payloads are operations of a run, next to the calls.
* **Lock** (`SpinLock`, `LockedHeap`). A step system over any number of cores, with the shared
  `saved_if`, the interrupt flags and a protected object of any type; then the same with the heap as
  the object and clients that store into their blocks without the lock.
* **Keyboard ring** (`KeyboardRing`). Every load and store of both sides is a step.
* **FAT32** (`FatTable`, `FatChain`, `FatVolume`, `FatBytes`, `FatFile`, `FatCopy`). Sectors of bytes carry the
  table and the clusters. The table carries chains. Chains carry flat byte contents. `File` is the cursor
  over them. Its methods are proved for every handle whose chain is in order, wherever seeks, errors and
  restarts left the cursor, and for handles whose cursor, position and size agree against the contents of
  the file. `FatCopy` is the loop of `cp`.
* **Directories** (`DirEntry`, `Directory`, `FatOpen`, `Glob`, `DirList`). A directory is the bytes of its chain
  read as 32-byte slots: 8.3 names, lookup, open, create, sync, unlink, wildcard search and reading entry
  by entry.
* **Whole volumes** (`FatFiles`, `FatSteps`). Table, clusters, the chains of all files and directories, and the
  place of every entry, over runs of any of the operations. An entry that records the chain its file had
  before is stale, and the chain it leads to is part of the state. `FatSteps` runs the operations
  themselves and shows which step each one is.

## Where code and intent part

The model follows the code. For each of these the member named says exactly when the intended
behaviour is met.

* `unlock` is documented to restore the interrupt flag that `lock` saved. This holds for one core only
  (`RestoredIffOneCore`).
* `check_invariants` passes on words that are the tags of no chunk list. `CheckExact` says what it would
  have to look at besides: PREV_IN_USE of the first chunk and of the epilogue, and the bits that the
  accessors mask away. `FirstFlagUnchecked`, `EpilogueFlagUnchecked` and `SpareBitUnchecked` give words of
  each kind.
* `dealloc` is documented to count violations and touch no memory. A pointer to no block in front of which
  the word reads as a header in use gets further. `FreeTouches` says exactly when memory stays untouched
  then, `ForgedArises` gives a way to such a pointer in any block of 64 bytes or more, and `ForgedInPayload`
  what is left of the heap.
* `f_write` without a current cluster gives the file a new first cluster, also when the file has a chain.
  The chain is then neither the file's nor free. `Write` covers both cases. Two ordinary ways there, on a
  file that fills its clusters, are reading to the end (`ReadThenAppend`) and seeking to the end
  (`SeekThenAppend`) before the write.
* After that the entry of the file still records the old chain. An unlink by name frees the old chain and
  loses the new one (`StartThenUnlink`, `RunLoses`); an open goes back to the old one.
* `f_sync` looks for the entry in the first sector of its cluster only, and leaves its buffer when the entry
  lies in another one (`Sync`).
* A new entry keeps the size field of the slot it takes. A file that is opened again before a sync has the
  size of whatever was there (`CreateThenOpen`).
* `f_write` fails when the data would end exactly at the end of the last free cluster, although all of it
  is on the disk, and leaves the cursor at the start of the last cluster (`Write`). So `cp` reports a copy
  that fills the volume as failed, although it is whole (`Copy`).
* `f_lseek` behind the chain stores a cluster index as the position (`Seek`).
* `f_expand` succeeds without raising the size when no cluster is missing; and when it adds clusters, a
  cursor that stood behind the last one stays without a cluster, so that the next read goes to cluster 0
  (`Expand`).
* A create in a directory without a free slot loses a cluster (`CreateFile`, `RunLoses`).
* The lookup accepts an entry whose name only begins with the name asked for (`LookupExact`).
* A create in the slot of the end marker writes no new marker (`CreateLists`).
* The wildcard matcher gives up at index 11, so `*` misses names of twelve characters; and a zero at the
  end of a pattern, as in the repository's own search for `*BIN`, makes it index out of bounds on such
  names (`MatchPattern`, `OverrunIff`).

## Model

| member | source | states |
|---|---|---|
| HeapCore.HeapCore.constructor | src/hal/heap.rs:62-73 | a heap without segments, in order over any memory |
| HeapCore.HeapCore.InitRegion | src/hal/heap.rs:77-100 | the words written for a region are those of a fenced segment with one free chunk; too small regions and a seventeenth segment are ignored |
| HeapCore.HeapCore.Alloc | src/hal/heap.rs:105-165 | the walk over header words and the tag writes are first-fit take-or-split on the chunk lists, with the counters and both refusals |
| HeapCore.HeapCore.FindInSegment | src/hal/heap.rs:123-161 | the loop over header words ends, and at the first chunk of the list that is free and large enough |
| HeapCore.HeapCore.Carve | src/hal/heap.rs:138-156 | exactly the header and footer words of the taken chunk, of the rest and of the follower change |
| HeapCore.HeapCore.Dealloc | src/hal/heap.rs:169-257 | freeing a block merges it with free neighbours on the list; null, foreign, misaligned and stale pointers only change a counter; for any pointer the words and counters written |
| HeapCore.HeapCore.Coalesce | src/hal/heap.rs:210-254 | on any words, the two merges, the exits and the tags written, as a function of the words before |
| HeapCore.HeapCore.AbsorbFree | src/hal/heap.rs:233-242 | the loop over header words ends on any words and is the forward walk `Absorb` |
| HeapCoalesce.AbsorbMeans | src/hal/heap.rs:233-242 | that walk clears only words that did not read as in use, all between its start and its end, and stops exactly at a header in use, an impossible size or the end of the segment |
| HeapCoalesce.SiteCoalesces | src/hal/heap.rs:205-254 | for a live chunk none of the corrupt-size exits is taken, and the words written are the tags of the merged chunk |
| HeapLayout.HeaderBits | src/hal/heap.rs:331-343 | size and both flags of a header word read back as stored |
| HeapLayout.WordParts | src/hal/heap.rs:331-355 | any word is a multiple of 8, the size, and bit 2, PREV_IN_USE and IN_USE in bits 1 and 0 |
| HeapChunkOps.TakeFenced | src/hal/heap.rs:138-156 | after the tag writes of a take, the words of the whole segment are the tags of the list with that chunk taken or split |
| HeapChunkOps.ReleaseFenced | src/hal/heap.rs:205-254 | after the tag writes of a free, the words of the whole segment are the tags of the list with the merged chunk |
| HeapOps.InitInv | src/hal/heap.rs:77-100 | adding a region keeps the invariant |
| HeapOps.RegionIsAdded | src/hal/heap.rs:77-100 | a region cut to multiples of 16 becomes a segment with one free chunk if and only if fewer than 16 segments exist and 64 bytes are left; otherwise nothing changes |
| HeapOps.AllocInv | src/hal/heap.rs:105-165 | every allocation, granted or refused, keeps the invariant with both counters |
| HeapOps.FreeInv | src/hal/heap.rs:169-257 | a free of a block, and of any pointer that does not pass for one, keeps the invariant with both counters |
| HeapForged.FreeTouches | src/hal/heap.rs:210-256 | the free of any pointer that passes for a block leaves memory alone if and only if it finds the span to begin in front of the segment, or the chunk to end behind it with no free neighbour in front; if the merge gets through, IN_USE of that header is gone, the counts change as for a block and the invariant is broken, and if not, one counter is all that changes besides |
| HeapForged.ForgedInPayload | src/hal/heap.rs:210-256 | a forged chunk inside a payload, with a header in use behind it, gets through, and afterwards no chunk lists at all satisfy the invariant |
| HeapForged.ForgedArises | src/hal/heap.rs:169-256 | in every live block whose chunk has at least 64 bytes, two stores by its owner make a pointer into it pass for a block; its free writes memory, and no lists fit afterwards |
| HeapOps.JudgeBlock | src/hal/heap.rs:169-208 | the address of a live block is always recognised as that block |
| HeapBlocks.AllocRefuses | src/hal/heap.rs:105-165 | null exactly for stricter alignment, when max(size, 1) + 31 does not fit in 64 bits, or when no free chunk of any segment has at least 32 bytes and at least size + 16; only the last counts as out of memory; a refusal changes no word and no chunk |
| HeapBlocks.AllocGrants | src/hal/heap.rs:112-164 | the block is in the lowest suitable chunk of the lowest segment and has the least size, the least multiple of 16 that is at least 32 and size + 16, or the whole chunk if less than 32 bytes would be left; 16-aligned, between the fences, and apart from all live payloads; of the counters only blocks and free bytes change |
| HeapBlocks.TakeKeeps | src/hal/heap.rs:138-158 | an allocation moves no other block and changes no word of its payload |
| HeapBlocks.ReleaseKeeps | src/hal/heap.rs:205-256 | nor does a free |
| HeapBlocks.ChunksApart | src/hal/heap.rs:105-257 | distinct chunks never overlap, within a segment or across segments |
| HeapBlocks.ForeignIsBadFree | src/hal/heap.rs:170-196 | null, misaligned and foreign pointers raise the count of bad frees and nothing else |
| HeapBlocks.WordDecides | src/hal/heap.rs:198-208 | between the fences the word in front decides: lowest bit clear, a double free; no chunk's size, a bad free; nothing else changes |
| HeapBlocks.BlockIsFreed | src/hal/heap.rs:205-256 | the free of a block changes the counts of blocks and free bytes by it, and no other count |
| HeapBlocks.AllocThenFree | src/hal/heap.rs:105-257 | a free undoes the allocation: chunk lists and both counters are as before |
| HeapBlocks.AllFreed | src/hal/heap.rs:205-256 | when no block is live, in whatever order they were freed, every segment is one free chunk of end - base - 32 bytes |
| HeapRuns.RunInv | src/hal/heap.rs:77-257 | in every run of regions added, allocations, frees and client stores, words, lists and counters agree |
| HeapRuns.RunKeeps | src/hal/heap.rs:105-257 | in every run, a block that is not freed stays in place and each word keeps what its owner last stored |
| HeapRuns.DoubleFreeDetected | src/hal/heap.rs:198-203 | after a free, through any further run, freeing the same pointer only counts a double free, until it is handed out again or a client stores into its former header word |
| HeapRuns.StaleIsDoubleFree | src/hal/heap.rs:198-203 | a pointer behind a header with IN_USE clear changes one counter and nothing else |
| HeapSpares.CallSpares | src/hal/heap.rs:105-257 | a word that belongs to a payload after an allocation or a free was not changed by it |
| HeapCheck.CheckInvariants | src/hal/heap.rs:266-325 | on arbitrary words the checker returns true exactly when every segment's walk passes all its tests and ends at the epilogue |
| HeapCheck.InvariantPasses | src/hal/heap.rs:266-325 | the invariant makes the checker return true |
| HeapCheck.CheckExact | src/hal/heap.rs:266-325 | the words of a region are the tags of some chunk list if and only if the checker passes and the bits it does not look at are in order: PREV_IN_USE of the first chunk, that of the epilogue behind a chunk in use, and the masked low bits |
| HeapCheck.WrongFooterFails | src/hal/heap.rs:289-312 | with another size in the footer of any free chunk, a segment in order no longer passes |
| HeapCheck.ParseUnique | src/hal/heap.rs:278-318 | the words determine the chunk list |
| HeapCheck.FirstFlagUnchecked | src/hal/heap.rs:278-318 | every segment in order still passes with PREV_IN_USE of its first chunk cleared, though its words then describe no chunk list |
| HeapCheck.EpilogueFlagUnchecked | src/hal/heap.rs:306-322 | the same for the epilogue behind a chunk in use |
| HeapCheck.SpareBitUnchecked | src/hal/heap.rs:315-322 | the same for the bit of a header that belongs neither to the size nor to a flag |
| SpinLock.RunSafe | src/hal/memory.rs:39-63 | at every moment of every interleaving at most one core is inside, the flag is set exactly then, interrupts are masked there, object and results are those of a sequential run in acquisition order, and every core gets the lock for exactly its own calls in order and returns their results |
| SpinLock.OneCoreRestores | src/hal/memory.rs:39-63 | on one core the shared saved flag is always that core's own |
| SpinLock.ClobberedRuns | src/hal/memory.rs:39-63 | for two or more cores: a run in which a waiting core overwrites the saved flag of the owner |
| SpinLock.RestoredIffOneCore | src/hal/memory.rs:39-63 | every run leaves every idle core with its own interrupt flag if and only if there is at most one core |
| LockedHeap.LockedHeapSafe | src/hal/memory.rs:86-123 | under any interleaving of calls and of stores into blocks, on any number of cores, the heap is, up to writes still owed by the core inside, one that a sequential run of the allocator and its clients reaches, with its invariant; calls are served in lock order, each core gets the replies to its own calls, and every reply is right for the heap at its place in that run: a block of the caller's own, large enough and apart from all others, or a refusal for cause, and the warnings |
| LockedHeap.StoreLinear | src/hal/memory.rs:86-123 | a store without the lock commutes with the writes that the core inside still owes |
| LockedHeap.AllocReplies | src/hal/memory.rs:87-105 | the pointer is null exactly for the three causes of refusal and otherwise the payload of a new block; a warning accompanies exactly the nulls that are not due to overflow |
| LockedHeap.DeallocWarns | src/hal/memory.rs:107-122 | a free warns exactly about pointers to no live block, except one that passes for a block and whose merge gets through |
| KeyboardRing.RunFifo | src/hal/input.rs:127-153 | at every moment of every interleaving, bytes returned followed by bytes in the ring are the bytes that pushes were called with, without those dropped, in order; at most one push is under way |
| KeyboardRing.DropsOnlyWhenFull | src/hal/input.rs:127-137 | a push is dropped exactly when 255 bytes are queued at its test |
| KeyboardRing.PushGoesIn | src/hal/input.rs:127-137 | a push that is not interrupted puts its byte behind the others if fewer than 255 are queued |
| KeyboardRing.PollTakesOldest | src/hal/input.rs:139-153 | a poll that is not interrupted returns the oldest byte |
| FatTable.WriteEntryIsUpdate | src/hal/fat32.rs:220-249 | at byte level an entry write is a map update: masked value back, top four bits and all other entries kept, copies that agreed still agree, no data sector changed |
| FatTable.WriteSectorIsUpdate | src/hal/fat32.rs:197-199 | a data sector write changes that sector of that cluster and no table entry |
| FatTable.CopiesApart | src/hal/fat32.rs:240-246 | sectors of different table copies are different sectors |
| FatTable.TableBounds | src/hal/fat32.rs:152-153 | table sectors lie before the data region |
| FatTable.ClustersApart | src/hal/fat32.rs:197-199 | distinct clusters share no sector |
| FatTable.ClustersTile | src/hal/fat32.rs:152-199 | cluster 2 begins right behind the last table copy and every cluster right behind the one before |
| FatTable.SectorPlace | src/hal/fat32.rs:197-199 | the sectors of a cluster, in order, by their numbers on the device |
| FatTable.EntryBytes | src/hal/fat32.rs:201-218 | the entry of a cluster is the low 28 bits of four bytes, lowest first, at their place in the first table copy |
| FatTable.PutGet | src/hal/fat32.rs:211-238 | a little-endian word reads back as stored |
| FatVolume.FatVolume.ReadFatEntry | src/hal/fat32.rs:201-218 | the entry of the abstract table |
| FatVolume.FatVolume.WriteFatEntry | src/hal/fat32.rs:220-249 | read, merge and write of sectors is the map update on the abstract table |
| FatVolume.FatVolume.ReadCluster | src/hal/fat32.rs:251-263 | the bytes of the cluster's sectors in order |
| FatVolume.FatVolume.WriteCluster | src/hal/fat32.rs:265-277 | the cluster holds the bytes given; every other cluster and the table are kept |
| FatVolume.FatVolume.FindFreeCluster | src/hal/fat32.rs:279-288 | the lowest free cluster, and none exactly when the table is full |
| FatVolume.FatVolume.CountFreeClusters | src/hal/fat32.rs:290-299 | the number of free clusters |
| FatVolume.FatVolume.FreeChain | src/hal/fat32.rs:1362-1368 | ends on every table, cyclic ones included, and clears exactly the clusters reached |
| FatChain.TrailOfChain | src/hal/fat32.rs:1362-1368 | on a chain the freeing loop clears exactly its clusters |
| FatChain.TrailClosed | src/hal/fat32.rs:1362-1368 | on any table it clears a set closed under following entries |
| FatChain.ClearedCount | src/hal/fat32.rs:736-757 | freeing clusters of a chain raises the free count by exactly their number |
| FatChain.AppendMidway | src/hal/fat32.rs:658-670 | between the two table writes of an append every chain is terminated and disjoint and exactly one cluster has become an orphan |
| FatChain.AppendDone | src/hal/fat32.rs:658-670 | after the second write it is the chain's last cluster and no orphan has been added |
| FatChain.AppendOrdered | src/hal/fat32.rs:658-670 | the same two facts for the two writes, for any set of files |
| FatChain.OthersKept | src/hal/fat32.rs:580-859 | an edit of one chain leaves every disjoint chain a chain, disjoint, with all its sectors |
| FatChain.EditedAll | src/hal/fat32.rs:580-859 | an edit of one chain keeps all chains in order and neither makes nor ends an orphan |
| FatFile.AppendCluster | src/hal/fat32.rs:817-853 | claim and link grow the chain by a free cluster; between the two writes all chains of all files are in order with one orphan, after them with none; without a free cluster nothing changes |
| FatFile.File.Read | src/hal/fat32.rs:513-578 | from any cursor, the bytes of the chain from there on, as many as fit, as the size allows and as the chain holds; with cursor, position and size in agreement exactly min(length, size - position) bytes of the contents, and they agree afterwards |
| FatFile.File.StartOver | src/hal/fat32.rs:590-600 | with no current cluster the file starts over at a free cluster; a chain it had stays in the table; without a free cluster nothing changes |
| FatFile.File.Write | src/hal/fat32.rs:580-679 | from any cursor: through a current cluster the chain's bytes are overwritten or extended exactly there, and without one a new chain holds only the data at the cursor's sector and byte; Ok if and only if there is room; position and size after each; only this chain and free clusters change; the state an error leaves. Cursor, position and size agree afterwards if and only if there was a current cluster or no chain, and then the contents are overwritten or extended exactly at position |
| FatFile.ReadThenAppend | src/hal/fat32.rs:513-679 | reading a file that fills its clusters to the end and then writing always loses the chain |
| FatFile.SeekThenAppend | src/hal/fat32.rs:580-728 | so does seeking to its end and then writing |
| FatFile.File.Seek | src/hal/fat32.rs:681-728 | inside the chain the cursor names the byte asked for; behind it there is no current cluster and the position is a cluster index; the position asked for is reached if and only if the offset is inside the chain, in the first cluster or the old position |
| FatFile.File.Truncate | src/hal/fat32.rs:730-762 | from any cursor the chain is cut behind the current cluster and the free count rises by exactly the clusters dropped; the contents are cut at position |
| FatFile.File.Expand | src/hal/fat32.rs:764-859 | from any cursor: Ok if and only if enough clusters are free; then exactly ceil(size / cluster size) clusters if any was missing, with the bytes kept; cursor, position and size stay in agreement if and only if there was a current cluster, no chain, or nothing was added |
| FatFile.File.CountClusters | src/hal/fat32.rs:779-793 | the length of the chain |
| FatFiles.StepSound | src/hal/fat32.rs:394-1372 | every step keeps all chains, of files and of stale entries, acyclic, terminated and disjoint, and every directory entry leading to the chain it records; exactly the lost clusters become orphans and no orphan comes back |
| FatFiles.StepKeeps | src/hal/fat32.rs:394-1372 | a step keeps every chain it does not work on, with all its bytes |
| FatFiles.RunSound | src/hal/fat32.rs:394-1372 | in every run of these steps on any number of files and directories all chains stay in order and every entry leads where it should |
| FatFiles.RunKeepsOthers | src/hal/fat32.rs:394-1372 | a chain that no step of a run works on stays, with its bytes |
| FatFiles.RunLoses | src/hal/fat32.rs:394-1372 | over every run the orphans are those of the beginning and the clusters lost since; with the chains that only stale entries lead to, they are all clusters in use that belong to no file |
| FatSteps.WriteStep | src/hal/fat32.rs:580-679 | for any handle a write is a write step, the start of a new chain, or no step, each exactly when |
| FatSteps.ExpandStep | src/hal/fat32.rs:764-859 | for any handle an expand, also one that fails, is an expand step, the start of a chain, or no step if the chain is the same |
| FatSteps.TruncateStep | src/hal/fat32.rs:730-762 | for any handle a truncate is a truncate step, or none without the right to write |
| FatSteps.OpenStep | src/hal/fat32.rs:394-509 | an open is an open step, a create step, a lost cluster in a full directory, or no step, each exactly when; the handle is on the chain that the entry records |
| FatSteps.SyncStep | src/hal/fat32.rs:909-948 | a sync that stays in its buffer is a sync step of a modified file, and none otherwise |
| FatSteps.UnlinkStep | src/hal/fat32.rs:1332-1372 | an unlink is an unlink step of what the entry records, stale or not, or none if the name is not found |
| FatSteps.StartThenUnlink | src/hal/fat32.rs:580-1372 | a write that starts a new chain and an unlink of that name: the old chain is free and the new one orphaned |
| FatCopy.Copy | src/applets/cp/mod.rs:158-166 | the loop ends; the source is unchanged; the destination is as much of it as there is room for, and equal to it if and only if it fits; success is reported if and only if room is left over |
| FatCopy.CopyPart | src/applets/cp/mod.rs:161-165 | one turn appends exactly the bytes read |
| FatCopy.CopyThenOpen | src/applets/cp/mod.rs:158-170 | the copy, synced and opened by its name, is as much of the source as there was room for, and equal to it if and only if it fits |
| DirEntry.ReadDirEntryName | src/hal/fat32.rs:301-326 | base and extension up to the first space or zero, joined by a dot, zeros behind; none if empty |
| DirEntry.EncodeName | src/hal/fat32.rs:475-487 | the eleven bytes of a name split at its first dot and padded with spaces |
| DirEntry.NameRoundTrip | src/hal/fat32.rs:301-326 | for valid 8.3 names, encoding and reading gives the name back |
| DirEntry.NameIs | src/hal/fat32.rs:301-326 | the name of any entry, from where its base and its extension end |
| DirEntry.LongNameIsCut | src/hal/fat32.rs:475-487 | for names of any length, encoding and reading cuts the base to eight characters and the extension to three |
| Directory.FindEntryInDir | src/hal/fat32.rs:328-375 | cluster and index of the first slot of the chain, before an end marker, whose name begins with the name asked for, ignoring case; out of bounds exactly when an entry in front of it drives the comparison there |
| Directory.NameMatches | src/hal/fat32.rs:358-367 | the comparison loop accepts exactly the case-insensitive prefixes of the name with zeros behind it, and leaves the thirteen bytes exactly when they all agree with a longer name |
| Directory.LookupExact | src/hal/fat32.rs:328-375 | the lookup agrees with one by exact name if and only if no entry in front has a longer name that begins with it |
| Directory.LookupRule | src/hal/fat32.rs:340-370 | what the lookup does with one slot, from its bytes: bit 3 of the attributes, then the first byte, then the name decide |
| Directory.SameLetterIff | src/hal/fat32.rs:358-367 | two bytes compare equal exactly if they are equal or the two cases of an ASCII letter |
| Directory.LookupIgnoresCase | src/hal/fat32.rs:328-375 | names that differ only in the case of ASCII letters are looked up alike |
| Directory.FreeSlotRule | src/hal/fat32.rs:452-472 | a new entry takes the first slot that begins with a zero or the mark of a deleted entry |
| Directory.PrefixIsAccepted | src/hal/fat32.rs:358-367 | the first letters of an entry's name find that entry |
| Directory.CreateFile | src/hal/fat32.rs:442-509 | the first unused slot gets the entry, nothing else of the directory changes, the file starts empty on a cluster of its own; both errors, one of which leaves an orphan cluster |
| Directory.CreateThenFind | src/hal/fat32.rs:452-494 | after a create, which follows a lookup that found nothing, the lookup gives exactly the slot written |
| Directory.CreatedIsFound | src/hal/fat32.rs:442-509 | the same on the bytes on disk that `CreateFile` leaves |
| Directory.Unlink | src/hal/fat32.rs:1332-1372 | the slot found is marked deleted and the clusters reached from the one it records are free again, which are exactly the file's if it starts a chain; no other cluster changes |
| FatOpen.Open | src/hal/fat32.rs:394-509 | a name that is found opens the chain and size its entry records, in agreement exactly when the size fits the chain, or fails if it must be new; otherwise the file is created, or missing |
| FatOpen.Sync | src/hal/fat32.rs:909-948 | a modified file's first cluster and size go into its slot and nothing else changes; the buffer is left if and only if the entry is not in the first sector of its cluster |
| FatOpen.FindFrame | src/hal/fat32.rs:328-375 | a slot that keeps its first twelve bytes is found as before |
| FatOpen.SyncThenOpen | src/hal/fat32.rs:394-948 | a file that is synced and opened again by its name has its chain and its contents |
| FatOpen.CreatedSize | src/hal/fat32.rs:475-494 | a new entry records its cluster, and the size that was in the slot |
| FatOpen.CreateThenOpen | src/hal/fat32.rs:394-509 | a file created and opened again before a sync has the size of what was in its slot, so its own, 0, exactly when that field was 0 |
| Glob.MatchPatternInner | src/hal/fat32.rs:1111-1139 | the backtracking loops decide the scan relation, or leave the name buffer exactly when `Overruns` says so |
| Glob.MatchPattern | src/hal/fat32.rs:1075-1109 | accepts exactly what the wildcards mean for names of up to eleven characters; for twelve, what the pattern without its trailing stars means |
| Glob.ShortNamesExact | src/hal/fat32.rs:1111-1139 | the scan is the declarative meaning for names of up to eleven characters |
| Glob.LongNames | src/hal/fat32.rs:1087-1093 | for twelve characters it is the meaning of the pattern without trailing stars |
| Glob.OverrunIff | src/hal/fat32.rs:1111-1139 | the buffer is left if and only if the pattern has zeros enough and its part up to the crossing zero accepts the name |
| Glob.NoOverrun | src/hal/fat32.rs:1111-1139 | name length and number of zeros decide when a call is safe |
| Glob.FullNameOverruns | src/hal/fat32.rs:1111-1139 | a star, the last three characters of a twelve-character name and a zero leave the buffer |
| DirList.Dir.constructor | src/hal/fat32.rs:1141-1216 | a reader at the first slot; of a pattern the first eleven bytes count |
| DirList.Dir.Readdir | src/hal/fat32.rs:1156-1202 | returns the first name not yet reported of the live, accepted entries before the end marker, in chain order, and leaves the others to report; or meets an entry on which the matcher leaves its buffer |
| DirList.ReadAll | src/hal/fat32.rs:1771-1781 | reading from the start until nothing is left gives the names of the listing, each once and in order, all of them if and only if no entry drives the matcher out of its buffer |
| DirList.EventsAre | src/hal/fat32.rs:1156-1202 | what happens to a reader is the listing in order, whole if and only if no entry on the way drives the matcher out of its buffer, and nothing after one that does |
| DirList.ListingRule | src/hal/fat32.rs:1156-1202 | what a listing shows of one slot, from its bytes: a zero in front ends it, deleted entries and those with bit 3 of the attributes are left out, all others show if the pattern accepts their name |
| DirList.PlainIsSafe | src/hal/fat32.rs:1156-1202 | a pattern without zeros is safe in every directory |
| DirList.CreateLists | src/hal/fat32.rs:452-494 | a create adds its name to what a reader sees, and nothing else if and only if its slot was a deleted one or nothing is listed behind it |
| DirList.UnlinkLists | src/hal/fat32.rs:1332-1372 | an unlink takes exactly its name out of what a reader sees |
| DirList.ListingBehind | src/hal/fat32.rs:1156-1202 | changing a slot a reader has passed does not change what it still reports |

## Left out

- HeapCore.InitRegion: demands of the caller a mapped region below 2^64 apart from all segments, as the unsafe function's users guarantee.
- HeapForged.FreeTouches: that other chunk lists fit the words left by such a free, by a client's design, is excluded only in `ForgedInPayload`. An address sum past 2^64 counts as past the segment.
- HeapRuns.RunInv and LockedHeap.LockedHeapSafe: their runs contain no free of a pointer that passes for a block without being one.
- FatVolume.FatVolume.FreeChain and Directory.Unlink: demand that following the entries from the first cluster meets no reserved value, bad-cluster mark or number behind the table, where the code would read sectors outside the table.
- FatFile.File.Seek and FatFile.File.Truncate: demand, for a file without clusters or a cursor without one, that entry 0 of the table is an end mark, because the code follows it as a cluster.
- FatFile.File.Read: demands a current cluster when there is something to read, where the code would compute the sectors of cluster 0.
- Directory.Unlink and FatOpen.Open: demand a name of at most thirteen bytes or without zeros, for which `SearchableStays` shows that the lookup stays in bounds.
- FatSteps.OpenStep and FatSteps.UnlinkStep: the slot the lookup finds is the entry of a file of the model, so not one of the `.` and `..` entries that `f_mkdir` makes. Of the entries in a directory that is written like a file nothing is claimed afterwards.
- Device errors: sector reads and writes succeed.
- Geometry: at least one table copy, the device covers every cluster the table has room for, and no 32-bit overflow in sector numbers or file sizes.
- One open handle per file: handles of the same file do not see each other's cursors in the code, and such pairs are not modelled.
- Weak memory orderings: atomics are sequentially consistent steps.
- Counters are unbounded; the sixteen segments are a sequence rather than an array, and buffers of a sector or cluster are sequences.
- The loops of one function are methods of their own where that keeps proofs small; the match of `with_vol` on an unmounted volume is not modelled.
- FA_CREATE_ALWAYS on a file that exists, `f_stat`, `f_mkdir`, `f_rename`, labels, attributes, times, formatted output and path walking.
- Hardware access, boot code, interrupt set-up, SMP bring-up, the shell and the printing of the applets.
