# UZIX kernel, file system tools and C library: a verified model

This project models the parts of the UZIX operating system whose correctness is hardest to see from one
function at a time, and proves what they promise. It has four independent parts.

**Storage** (`Blocks`, `FreeChain`, `SuperBlocks`, `FileTree`, `DiskInodes`, `ByteFiles`, `Volume`, `Mkfs`, `Fsck`,
`VolumeRuns`, `BufferCache`). A disk is a sequence of 512-byte blocks. `FreeChain` says what stack of block numbers a
superblock array and the chain blocks behind it stand for. `FileTree` adds the inodes' block trees: a *slot* is
a place that can hold a block number (a pointer of an inode, a word of an indirect block), and the invariant
`Ok` says that every block of the data region is on the free list or in exactly one slot. `ByteFiles` reads the
trees as byte arrays with holes. Class `Volumes.Volume` has the kernel's operations on the superblock, inodes
and blocks, updated in place; `owner`, `stack`, `sealed` and `stray` are ghost. A list is *sealed* when it has the
bottom entry 0 that fsck writes and mkfs does not. The block freed first onto a drained list becomes its bottom entry
without being cleared; if its words do not happen to read as an empty list the block is called *stray*, and if they
read as a list that holds only the entry 0, freeing it seals the list. `VolumeRuns` puts the pieces together: mkfs or
fsck, then a mount, then any run of operations. `BufferCache` is the pool of buffers underneath, proved to behave
like the block store that the other modules use directly, also while several buffers are held. Parameters named
`stale` and `junk` are what a buffer that is about to be overwritten happens to hold.

**Regular expressions** (`RegexSyntax`, `RegexLang`, `RegexGroups`, `RegexWays`, `RegexCode`, `RegexPatch`,
`RegexGrammar`, `RegexCompile`, `RegexPrepare`, `RegexFrames`, `RegexAhead`, `RegexSteps`, `RegexMatch`, `RegexExec`).
The grammar is given twice: as a parsing function that makes regcomp's decisions, and as a way to write patterns down,
with the trees they stand for and the rules for what may be written (`RegexGrammar`). The parser reads exactly what
can be written, and as what it was written. The meaning of an expression is given twice, on syntax trees alone: as a relation between two
positions of a string, and as the list of the ways to match, the preferred ones first, each with the groups it passes.
Both agree, and the matcher is proved to take the first way of the list. The compiled program of a syntax tree is a
sequence of bytes. Class `Compiler` runs the recursive-descent parser twice, counting and then emitting into an array and
patching "next" pointers; class `Matcher` walks the program by loops and recursion. The matcher carries ghost
*frames* that say what the code at the current node is for; they give the ways ahead and the measure.

**Sorting** (`QuickSort`). `qsort` on an array of bytes, elements being `width` bytes each, compared by a
function parameter.

**Processes and open files** (`Processes`, `OpenFiles`, `Kernel`). The process table and the open-file table are
arrays of records updated by scanning loops; `Kernel` says what each step does to both tables, and proves it of whole
runs.

`dafny verify dfyconfig.toml` checks everything.

Where code and comments differ, the model follows the code. The comment on `i_deref` speaks of files, but the
code truncates device inodes as well; the comment on `bfree` says that a buffer with the mark 2 is always written
at once, but the code does so only when `dirty_mask` is clear; `freebuf`'s wait for a buffer cannot be reached,
because its search loop does not end without one.

Results that are negative or conditional:

- a free list without bottom entry is a stack only until it is drained: the block freed next is not cleared, and there
  is a list again if and only if that block happens to read as an empty one, that is, its first word is 0 or its first
  two words are 1 and 0. So `f_trunc` leaves a volume in order if and only if the array of the superblock is not
  empty, or there is nothing to free, or the first block to be freed begins so; otherwise there is no stack, sealed or
  not, that the list could stand for (`Volumes.Volume.FTrunc`). `VolumeRuns.DrainedThenDropped` reaches such a volume,
  starting from mkfs;
- for a device inode `i_deref` frees the device number as a block. With a number in the data region (others make
  `validblk` panic) the volume is in order afterwards if and only if the number is 0 (`Volumes.Volume.FTrunc` and
  `IDeref`, `FileTree.NumberPushed`); `VolumeRuns.DeviceDropped` reaches a volume that no stack and no owners fit;
- what a transfer moves must be below 32768 bytes, because `Min` compares signed integers
  (`ByteFiles.AmountStaysInBlock` is an if-and-only-if); a read is first cut at the end of the file, so its count may
  be larger;
- a write that runs out of blocks leaves its bytes in place but neither count nor size updated
  (`Volumes.Volume.WriteI`);
- `dup2` with the same open descriptor twice closes it and increments a count outside the table
  (`OpenFiles.FileTable.SysDup2` says exactly when).

## Model

| member | source | states |
|---|---|---|
| `FreeChain.ChainFrame` | FS.C:752-781 | the stack that a free list stands for depends on the contents of the free blocks only |
| `FreeChain.ChainUnique` | FS.C:711-781 | one superblock and one store stand for at most one stack, so "the free list" is well defined |
| `FreeChain.PopTop` | FS.C:725-730 | taking the top entry pops the stack |
| `FreeChain.PopBottom` | FS.C:731-739 | taking the last entry and reloading the array from that block pops the stack: refill is invisible |
| `FreeChain.PushRoom` | FS.C:779-780 | storing an entry pushes it |
| `FreeChain.PushSpill` | FS.C:769-780 | saving the full array in the freed block and starting a new array with it pushes it: spill is invisible |
| `FreeChain.PushDrained` | FS.C:769-780 | a drained list without bottom entry, plus one block, stands for that block exactly when the block's stale words read as an empty list: word 0 for an unsealed list, words 1 and 0 for a sealed one; if and only if |
| `FreeChain.StrayChain` | FS.C:769-780 | a list that would be one if its bottom block were zeros stands for one stack of that length at most, namely that one, sealed if and only if the block begins with words 1 and 0, unsealed if and only if it begins with 0 |
| `FileTree.Conservation` | FS.C:711-781 | a block of the data region is free or in a slot, never both; no block is in two slots; the free list has no duplicates; s_tfree plus the used blocks is the size of the region |
| `FileTree.TopOfList` | FS.C:725-740 | what the superblock array shows of the stack: the top entry, an empty list, a list without bottom |
| `FileTree.PopOk` | FS.C:725-744 | popping, refilling and zeroing keep the free list well formed and counted |
| `FileTree.PushOk` | FS.C:768-780 | pushing a block that is not free keeps it so, with and without spill |
| `FileTree.LooseIs` | FS.C:759-781 | a list with a stray bottom block stands for no stack, sealed or not; without one it is in order |
| `FileTree.PushLoose` | FS.C:768-780 | pushing keeps a list in order up to its stray block; on an empty array the pushed block becomes the stray one exactly if it does not read as an empty list |
| `FileTree.FreedThen` | FS.C:869-889 | freeing some blocks and then others is freeing all of them |
| `FileTree.FreedOutcome` | FS.C:869-889 | after freeing a sequence of blocks the list is in order if and only if it was not drained, or nothing was freed, or the first block reads as an empty list; otherwise it stands for no stack, sealed or not |
| `FileTree.PushTwice` | FS.C:768-780 | a block freed twice: the list stands for no stack, sealed or not |
| `FileTree.FreeCountBound` | FS.C:779 | the free count cannot overflow |
| `FileTree.GraftHolds` | FS.C:912-961 | storing a fresh zeroed block in a slot changes that slot and no other slot of any inode, brings no pointers, moves no block |
| `FileTree.GraftOk` | FS.C:912-961 | and keeps every block owned exactly once |
| `FileTree.TreeOwned` | FS.C:843-863 | the blocks freeblk visits are exactly those in the slots of the tree, each once |
| `FileTree.KidsOwned` | FS.C:855-857 | the same for the subtrees below words 255 down to j of a pointer block |
| `FileTree.FileOwned` | FS.C:869-885 | the blocks f_trunc visits are exactly those in the slots of the inode, each once |
| `FileTree.FileInTurn` | FS.C:843-885 | the order of that list, by what the blocks are in the file: the blocks below pointer 19 from the last to the first, each pointer block behind those it names, then those below pointer 18, then the direct blocks from first to last |
| `FileTree.TreeFrame` | FS.C:759-781 | overwriting blocks outside a tree, as spilling into freed blocks does, leaves what freeblk will visit unchanged |
| `FileTree.TruncHolds` | FS.C:869-889 | clearing an inode's pointers empties its slots and no others |
| `FileTree.TruncOk` | FS.C:869-889 | after the inode's blocks went to the free list every block is still owned exactly once, if and only if the list is in order |
| `FileTree.NumberPushed` | FS.C:134-157 | pushing a number that is one of the data region's blocks, free or used, leaves a volume that no stack, seal and owners make consistent |
| `ByteFiles.AmountStaysInBlock` | SC1.C:185 | the part of a transfer taken at once stays inside its block if and only if what remains is below 32768 |
| `ByteFiles.PlaceInjective` | FS.C:909-962 | distinct inodes or 16-bit block numbers reach distinct data slots, inside the tree |
| `ByteFiles.BlockOfByte` | FS.C:909-962 | the byte of a file at an offset, from the 20 pointers and the words of pointer blocks alone |
| `ByteFiles.TakenLast` | FS.C:951-958 | the block for the last missing slot is the last one taken |
| `ByteFiles.NeedAtMostThree` | FS.C:897-964 | mapping a block takes at most three from the free list |
| `ByteFiles.GrownBytes` | FS.C:897-964 | blocks added by bmap change no byte of any file, since they are zeroed |
| `ByteFiles.GrownThen` | FS.C:943-962 | allocations along a path add up, on disjoint slots |
| `ByteFiles.MappedShort` | FS.C:937-956 | when allocation fails half way, the blocks added so far stay in the tree and the free list is empty |
| `ByteFiles.DataWrite` | SC1.C:192-200 | new contents for a data block show in its slot and in no other |
| `ByteFiles.WroteMore` | SC1.C:172-213 | one more part of a write extends the bytes in place and changes nothing else |
| `ByteFiles.WritingStep` | SC1.C:172-213 | and accounts for the blocks taken from the free list |
| `ByteFiles.WritingShort` | SC1.C:187-188 | the write stops early only if more blocks are missing than are free, with the part before in place |
| `ByteFiles.ReadBack` | SC1.C:103-238 | reading what was written returns it; reading other bytes or other files returns what was there before |
| `ByteFiles.HoleReadsZero` | SC1.C:177 | unallocated blocks read as zeros |
| `Volumes.Volume.BlkAlloc` | FS.C:711-753 | pops the stack and zeroes the block; an empty stack or a read-only volume gives 0 with the list unchanged; the corrupt mark is set exactly when an unsealed list is drained |
| `Volumes.Volume.Refill` | FS.C:731-739 | the array and its count are those saved in the block |
| `Volumes.Volume.Spill` | FS.C:769-777 | the array and its count are saved in the freed block, and no other block changes |
| `Volumes.Volume.Enter` | FS.C:768-780 | the block is on top of the array, which was saved in it if there was no room |
| `Volumes.Volume.BlkFree` | FS.C:759-781 | pushes the block, touching only that block; onto an empty array there is a list again if and only if the block reads as an empty one, and otherwise none at all; no list either for a block that is free already; nothing for block 0 or a read-only volume |
| `Volumes.Volume.FreeBlk` | FS.C:843-863 | the blocks of the tree are pushed, children before parents, although blk_free overwrites freed blocks while the tree is still being read, for lists with and without bottom entry; a single number is pushed even if it is no block in use |
| `Volumes.Volume.FreeDirects` | FS.C:880-885 | the direct blocks follow the two trees on the stack; of a device inode just the number is pushed, if it is not 0 |
| `Volumes.Volume.FreeFile` | FS.C:876-885 | all blocks of the inode are pushed in the order visited; no block outside the file is touched; of a device inode just the number |
| `Volumes.Volume.FTrunc` | FS.C:869-889 | every block of the inode is freed exactly once and no other slot, inode or block changes; the volume is consistent afterwards if and only if the list was not drained, or nothing is freed, or the first block freed reads as an empty list, and for a device inode if and only if its number is 0; otherwise no stack, seal and owners make it consistent |
| `Volumes.Volume.Bmap` | FS.C:897-964 | reading: the slot's block or NULLBLK, no change; writing: the path is filled with fresh blocks, the data block being the last one taken, nothing else changes, and NULLBLK comes back exactly when the path needs more blocks than are free, then with ENOSPC |
| `Volumes.Volume.BmapIndirect` | FS.C:925-963 | the same through the single and the double indirect block |
| `Volumes.Volume.BmapTop` | FS.C:936-942 | the first indirect block, read or created |
| `Volumes.Volume.BmapStep` | FS.C:944-962 | one level down: the byte of the block number selects the slot, which is read or filled |
| `Volumes.Volume.AllocRoot` | FS.C:912-918 | a missing pointer of the inode is filled with the top block of the list, zeroed, or nothing changes but the error |
| `Volumes.Volume.AllocBelow` | FS.C:951-958 | the same for a word of a pointer block |
| `Volumes.Volume.PutPointer` | FS.C:957-960 | the new number is in that word, and nothing else of the store changed |
| `Volumes.Volume.BmapFill` | FS.C:951-958 | the word of a level when it is missing |
| `Volumes.Volume.ReadLoop` | SC1.C:172-224 | copies the file's bytes, holes as zeros, and changes nothing on the volume |
| `Volumes.Volume.ReadOne` | SC1.C:173-213 | the part of a read inside one block |
| `Volumes.Volume.ReadBlock` | SC1.C:173-184 | the block at the offset, or a zeroed buffer for a hole |
| `Volumes.Volume.WriteLoop` | SC1.C:172-224 | the bytes land at their offsets across direct, single and double indirect blocks; the loop completes exactly when the missing blocks are covered by the free list, and otherwise leaves ENOSPC |
| `Volumes.Volume.WriteTurn` | SC1.C:173-224 | one turn: the next part is written and the place in the file moves, or there is no block |
| `Volumes.Volume.WriteOne` | SC1.C:173-213 | the part of a write inside one block, or the end of the free list |
| `Volumes.Volume.PutBytes` | SC1.C:192-200 | the bytes land in the block, whose other bytes stay even when it was not read |
| `Volumes.Volume.ReadI` | SC1.C:125-139 | all of the request is read, or what there is before the end of the file |
| `Volumes.Volume.WriteI` | SC1.C:172-232 | the size becomes the larger of the old size and the end of the write; without space the bytes moved stay, size and count do not change, and the error is ENOSPC, which a complete write does not touch |
| `Volumes.Volume.ReadWriteI` | SC1.C:103-238 | both directions with the error cases: read-only file systems, symbolic links, inodes that are no files, ENOSPC exactly for short writes; a read ends short only at the end of the file; a read-only volume can be read; the bound on the count concerns what is moved |
| `Volumes.Volume.TruncateTo0` | SC1.C:307-324 | only regular files are emptied; the same condition decides whether the volume stays consistent or cannot be made so |
| `Volumes.Volume.IDeref` | FS.C:134-157 | the last dereference of an unlinked inode frees its blocks, others free none; consistent afterwards if and only if the condition of f_trunc holds when blocks are freed, for device inodes too, and otherwise nothing makes it so |
| `Volumes.Volume.FreeInode` | FS.C:145-152 | that last dereference: blocks freed, inode cleared and unused, under the condition of f_trunc |
| `VolumeRuns.Perform` | FS.C:134-157 | every operation, each transfer with its own memory and request, does what it should to slots, blocks, inodes and free list, a read delivers the file's bytes, and the volume stays valid; excluded are just the truncations after which, by the condition of f_trunc, nothing makes it consistent |
| `VolumeRuns.PerformTruncate` | SC1.C:307-324 | the blocks of a regular file are freed in order, its slots and no others emptied |
| `VolumeRuns.PerformDeref` | FS.C:134-157 | the same when the last reference to an unlinked file goes; otherwise only the count of references changes |
| `VolumeRuns.Run` | FS.C:711-964 | in any sequence of mappings, transfers, truncations and dereferences (of files and devices), on a list with or without bottom entry, each operation that the condition of f_trunc does not exclude does what it should; afterwards the data region is partitioned into free list and trees, and s_tfree is right |
| `VolumeRuns.WriteThenRead` | SC1.C:103-238 | what was written at any offset is what is read back at any offset and length, in particular all of it at the same place; other bytes and files read as before; everything is written if and only if the free blocks suffice, and otherwise the error is ENOSPC |
| `VolumeRuns.AllocateRun` | FS.C:711-753 | allocating k times gives the stack from its top down and then 0 for ever |
| `VolumeRuns.Mount` | FS.C:1059-1090 | a mount takes the superblock from block 1 and the inodes from their table, or is refused exactly for a wrong magic number or sizes |
| `VolumeRuns.FormatThenAllocate` | MKFS.C:206-247 | on a volume fresh from mkfs, allocation gives 3+rsize+isize up to fsize-1 in order, each once, then 0 |
| `VolumeRuns.FormatThenMount` | MKFS.C:162-247 | what mkfs writes, mounted, is a consistent volume with the root directory as inode 1, with three links and one block, and every other data block free |
| `VolumeRuns.FormatThenRun` | MKFS.C:162-247 | any run on a new file system, operation by operation, and its data region partitioned and counted at the end |
| `VolumeRuns.DrainedFile` | FS.C:769-780 | from mkfs on, a consistent volume is reached in which the list is drained and an unlinked open file's only block does not read as an empty list |
| `VolumeRuns.DrainedThenDropped` | FS.C:134-157 | dropping that file leaves a free list that stands for no stack, sealed or not, and a volume that no owners make consistent |
| `VolumeRuns.DeviceDropped` | FS.C:134-157 | from mkfs on, dropping an unlinked device inode whose number is that of a data block leaves a volume that no stack, seal and owners make consistent |
| `VolumeRuns.RebuiltOk` | FSCK.C:256-288 | with a bitmap of exactly the blocks in the trees, the rebuilt list makes the volume consistent |
| `VolumeRuns.RepairThenMount` | FSCK.C:256-288 | pass 2 on such a device and then a mount give a consistent volume with a sealed list of the clear blocks, the trees unchanged |
| `SuperBlocks.SuperRoundTrip` | MKFS.C:206-215 | the superblock read back is the one written |
| `SuperBlocks.SuperLayout` | Unix.h:250-257 | which word of the block holds which field |
| `Blocks.WordBytes` | Unix.h:149 | the low byte of a word comes first |
| `DiskInodes.InodeRoundTrip` | Unix.h:206-220 | the 32 words of an inode in its block, with owner, a size of 32 bits and times, read as that inode |
| `DiskInodes.TableRoundTrip` | FS.C:457-459 | inode 8b + k is number k of block b of the table |
| `DiskInodes.KindsOfModes` | STAT.H:4-10 | the seven types of inode by their octal modes; a device is what has the bit of one |
| `Mkfs.Clear` | MKFS.C:186-202 | the last block is zeroed in both modes, and the blocks before the root directory, or all |
| `Mkfs.BuildFreeList` | MKFS.C:216-226 | the descending loop builds a list for the blocks above the root directory, lowest on top, with s_tfree their number |
| `Mkfs.ListGrows` | MKFS.C:218-226 | each turn of that loop pushes one block, spilling when the array is full |
| `Mkfs.NewInodesRead` | MKFS.C:227-245 | the inode table mkfs writes reads as a reserved inode, the root directory and unused inodes |
| `Mkfs.Format` | MKFS.C:162-247 | the disk holds that list, superblock and inode table, for the quick and the full way of zeroing |
| `Mkfs.FreshVolumeOk` | MKFS.C:227-247 | a fresh volume satisfies the storage invariant; the root directory's block is used, all blocks above it are free |
| `Fsck.ClearDownIs` | FSCK.C:268-280 | the list pass 2 builds has exactly the data blocks whose bit is clear, in descending order |
| `Fsck.BitOfBlock` | FSCK.C:270 | which bit of the bitmap is a block's |
| `Fsck.Checker.Pass2` | FSCK.C:256-288 | the rebuilt list is sealed and stands for those blocks, with s_tfree their number; block 1 then holds this superblock; blocks in use are not touched |
| `Fsck.Checker.AddFree` | FSCK.C:270-278 | one block of it |
| `Fsck.Checker.WriteSuper` | FSCK.C:643 | block 1 reads as the superblock in memory, and no list is disturbed |
| `Fsck.SealedTop` | FSCK.C:617-637 | what the array shows of a sealed list, with and without a refill |
| `Fsck.Checker.BlkAlloc` | FSCK.C:617-645 | fsck's own allocation pops that list and gives 0 when it is empty |
| `Fsck.Checker.RebuildAndDrain` | FSCK.C:256-645 | rebuilding and then allocating k times gives the clear blocks in ascending order, each once, then 0 |
| `Fsck.DrainsAscending` | FSCK.C:268-280 | popping the list gives ascending numbers |
| `BufferCache.FindUnique` | DIO.C:105-116 | at most one buffer names a block |
| `BufferCache.FlushOne` | DIO.C:239-248 | writing a dirty buffer back and clearing its mark changes no block's contents |
| `BufferCache.RenameOne` | DIO.C:120-132 | giving a clean unused buffer to another block changes no other block's contents |
| `BufferCache.TouchOne` | DIO.C:133-134 | changing a buffer's data changes that block's contents only |
| `BufferCache.BufPool.constructor` | DIO.C:88-95 | an initialised pool shows the disk |
| `BufferCache.BufPool.Scan` | DIO.C:219-230 | finds a least recently used buffer among those that fit, under a wrapping clock, or that there is none |
| `BufferCache.BufPool.Pick` | DIO.C:215-232 | prefers buffers whose mark has bit 0 clear, and among them one whose age on the 16-bit clock none exceeds |
| `BufferCache.BufPool.FreeBuf` | DIO.C:202-250 | that buffer is evicted and written back if dirty; no block's contents change |
| `BufferCache.BufPool.Bread` | DIO.C:98-138 | gives the block's current contents, or zeros, in the buffer that already names it if there is one; other blocks keep their contents |
| `BufferCache.BufPool.Search` | DIO.C:105-116 | finds the buffer that names the block |
| `BufferCache.BufPool.Load` | DIO.C:120-132 | evicts a preferred buffer and reads the block into it, unless it is to be rewritten |
| `BufferCache.BufPool.Bfree` | DIO.C:141-160 | keeps all contents; with the mark 2, new or old, the block is on the disk and the mark gone unless writing is delayed, and otherwise the disk is not touched |
| `BufferCache.BufPool.ZeroBuf` | DIO.C:166-181 | gives a zeroed buffer that names no block; all contents stay |
| `BufferCache.BufPool.Bufsync` | DIO.C:184-197 | contents stay, and the disk then holds them for every buffer without prio and every block without buffer |
| `BufferCache.BufPool.SyncOne` | DIO.C:186-195 | one buffer: written back exactly if it is marked and not pinned |
| `BufferCache.BufPool.PutData` | DIO.C:98-160 | overwriting a busy buffer changes the contents of its block only |
| `BufferCache.BufPool.Read` | DIO.C:98-160 | bread and bfree read the plain store of blocks and leave it unchanged |
| `BufferCache.BufPool.Write` | DIO.C:98-160 | bread for rewriting and bfree update one block of it |
| `BufferCache.NoMoreThanHeld` | DIO.C:213-236 | buffers in use are no more than the blocks held |
| `BufferCache.OneFree` | DIO.C:213-236 | while fewer blocks are held than there are buffers, freebuf finds one to give away |
| `BufferCache.MovedOne` | DIO.C:98-160 | what is known of the pool survives the change of one buffer, if it holds of that buffer |
| `BufferCache.Taken` | DIO.C:98-138 | taking a block, to read, to rewrite or zeroed, while others are held |
| `BufferCache.SyncedAll` | DIO.C:184-197 | writing back all marked buffers, held or not, changes nothing that users know |
| `BufferCache.BufPool.PerformTake` | DIO.C:98-138 | the same for bread |
| `BufferCache.BufPool.PerformOverwrite` | DIO.C:98-160 | changing a held block changes it in the plain store and no other |
| `BufferCache.BufPool.PerformHandBack` | DIO.C:141-160 | handing a block back, marked if it was changed, loses nothing |
| `BufferCache.BufPool.PerformHole` | DIO.C:166-181 | a buffer of zeros taken and handed back leaves no trace |
| `BufferCache.BufPool.PerformSync` | DIO.C:184-197 | bufsync while blocks are held leaves every buffer without mark and nothing changed for users |
| `BufferCache.BufPool.Perform` | DIO.C:98-250 | each use keeps what the users know, and a look shows what the plain store holds |
| `BufferCache.BufPool.Run` | DIO.C:98-250 | any run of taking, looking at, overwriting and handing back blocks, several held at once as long as a buffer is left, with syncs in between, shows exactly what the plain store holds |
| `BufferCache.AllOnDisk` | DIO.C:184-197 | with no block held and no mark left, the disk is the plain store |
| `BufferCache.UseAndSync` | DIO.C:88-250 | from a new pool on: after any such run in which all is handed back, and a sync, the disk is the plain store, but for blocks taken to be rewritten and never written |
| `QuickSort.SwapElements` | libc/QSORT.C:105-116 | exchanging the bytes of two elements exchanges the elements |
| `QuickSort.RotateElements` | libc/QSORT.C:118-130 | the three-way exchange of bytes rotates the elements |
| `QuickSort.ElementBytes` | libc/QSORT.C:133-139 | element k is the k-th group of width bytes from base on |
| `QuickSort.QExchange` | libc/QSORT.C:105-116 | the byte loop, also for an element with itself |
| `QuickSort.Q3Exchange` | libc/QSORT.C:118-130 | the byte loop, also when two of the elements coincide |
| `QuickSort.StartsParting` | libc/QSORT.C:24-26 | the partition invariant holds at the start |
| `QuickSort.LeftEqual` | libc/QSORT.C:41-47 | an equal element on the left joins the equal interval |
| `QuickSort.Crossing` | libc/QSORT.C:53-61 | a larger element on the left and a smaller one on the right change places |
| `QuickSort.MiddleUp` | libc/QSORT.C:62-72 | the equal interval moves up over a smaller element |
| `QuickSort.RightEqual` | libc/QSORT.C:74-80 | an equal element on the right joins the equal interval |
| `QuickSort.MiddleDown` | libc/QSORT.C:83-93 | the equal interval moves down over a larger element |
| `QuickSort.Sorter.Partition` | libc/QSORT.C:24-94 | the loops with their back jumps end, with smaller elements left and larger ones right of an interval of equals, a rearrangement of what was there |
| `QuickSort.Sorter.Compare` | libc/QSORT.C:36 | compares two elements through their bytes |
| `QuickSort.Sorter.Exchange` | libc/QSORT.C:105-116 | exchanges two elements and leaves other memory alone |
| `QuickSort.Sorter.Exchange3` | libc/QSORT.C:118-130 | rotates three elements and leaves other memory alone |
| `QuickSort.Sorter.ScanLeft` | libc/QSORT.C:36-48 | the left scan keeps the invariant and stops at a larger element or the interval |
| `QuickSort.Sorter.ScanRight` | libc/QSORT.C:49-94 | the right scan keeps it, and each jump back shrinks the unknown regions |
| `QuickSort.Sorter.QSort1` | libc/QSORT.C:15-103 | sorts and rearranges its range, for any total preorder; nothing outside changes |
| `QuickSort.OneMoreTurn` | libc/QSORT.C:95-101 | what a turn of the endless loop adds to the sorted front |
| `QuickSort.Ordered` | libc/QSORT.C:95-101 | elements on both sides of the equal interval are ordered after the smaller part was sorted |
| `QuickSort.QSort` | libc/QSORT.C:132-140 | the elements are a sorted permutation of what they were, also for none; other memory is unchanged (section 7.22.5.2 of ISO/IEC 9899:2011) |
| `RegexSyntax.RunLength` | libc/REGEXP.C:1063-1086 | the length of the longest run without special characters |
| `RegexSyntax.RangeAfter` | libc/REGEXP.C:465-470 | the characters of a range after its first |
| `RegexSyntax.AtomWf` | libc/REGEXP.C:430-528 | what the parser accepts is well formed: no NULs, group numbers in range, and an operator after a run applies to one character |
| `RegexSyntax.AltsWf` | libc/REGEXP.C:269-330 | the same for all alternatives |
| `RegexSyntax.PiecesStep` | libc/REGEXP.C:347-356 | reading one piece after another from left to right is the grammar's sequence |
| `RegexSyntax.AltsStep` | libc/REGEXP.C:299-308 | reading one alternative after another is the grammar's choice |
| `RegexGrammar.ClassMeans` | libc/REGEXP.C:456-479 | a bracket expression contains a character if and only if it stands there or lies between the two ends of a range |
| `RegexGrammar.ItemsRead` | libc/REGEXP.C:456-479 | brackets that were written are read to the end, with those characters in order |
| `RegexGrammar.ItemsWritten` | libc/REGEXP.C:456-479 | what is read as brackets was written so: ranges not backwards, dashes and closing brackets only where they stand for themselves |
| `RegexGrammar.AtomRead` | libc/REGEXP.C:430-528 | an atom that was written is read as its tree, with its group numbers |
| `RegexGrammar.PieceRead` | libc/REGEXP.C:370-421 | the same for a piece with its operator |
| `RegexGrammar.PiecesRead` | libc/REGEXP.C:336-360 | the same for an alternative: characters in a row are one run, but for the last one before an operator |
| `RegexGrammar.AltsRead` | libc/REGEXP.C:269-330 | the same for alternatives |
| `RegexGrammar.PatternRead` | libc/REGEXP.C:269-330 | the same for a whole pattern |
| `RegexGrammar.AtomWritten` | libc/REGEXP.C:430-528 | an atom that is accepted was written, by the rules, as its tree says |
| `RegexGrammar.PieceWritten` | libc/REGEXP.C:370-421 | the same for a piece |
| `RegexGrammar.PiecesWritten` | libc/REGEXP.C:336-360 | the same for an alternative |
| `RegexGrammar.AltsWritten` | libc/REGEXP.C:269-330 | the same for alternatives |
| `RegexGrammar.ParseMeans` | libc/REGEXP.C:190-330 | a pattern is accepted if and only if it can be written by the rules, and is read as the tree it was written for, whichever way it was written |
| `RegexGrammar.WeightIs` | libc/REGEXP.C:370-528 | how many bytes of program a piece takes |
| `RegexGrammar.FitsIs` | libc/REGEXP.C:210-212 | which patterns have a program of less than 32767 bytes, from the tree alone |
| `RegexLang.WidthSound` | libc/REGEXP.C:386-388 | HASWIDTH is sound: such an expression never matches the empty string |
| `RegexLang.WidthExact` | libc/REGEXP.C:386-388 | HASWIDTH is exact: an expression is without it if and only if it matches the empty string |
| `RegexLang.Bounds` | libc/REGEXP.C:738-911 | a match stays inside the string |
| `RegexLang.StarUnfold` | libc/REGEXP.C:391-398 | x* is empty or x+ |
| `RegexLang.PlusUnfold` | libc/REGEXP.C:401-408 | x+ is x followed by x* |
| `RegexLang.LitAppears` | libc/REGEXP.C:240-253 | every literal of a sequence appears in what the sequence matches |
| `RegexGroups.AtomNumbers` | libc/REGEXP.C:482-487 | the same for one atom: a group gets the next number |
| `RegexGroups.AltsNumbers` | libc/REGEXP.C:269-330 | the groups are numbered consecutively in the order of their opening parentheses, so no two have the same number, and those inside a group have larger ones |
| `RegexWays.WaysMatch` | libc/REGEXP.C:370-421 | the ordered ways to match an expression end at exactly the positions at which its matches end |
| `RegexWays.AltsMatch` | libc/REGEXP.C:269-330 | the same for alternatives |
| `RegexWays.PiecesMatch` | libc/REGEXP.C:336-360 | the same for a sequence of pieces |
| `RegexWays.StarMatch` | libc/REGEXP.C:391-398 | the same for x*, although only turns that consume something are followed |
| `RegexWays.EarlierPreferred` | libc/REGEXP.C:858-865 | the preferred way is one of the first alternative that matches at all |
| `RegexWays.MorePreferred` | libc/REGEXP.C:391-416 | wherever the operand of * or ? matches, the preferred way takes it |
| `RegexWays.LastMarkIs` | libc/REGEXP.C:798-851 | the mark that counts for a group is the last one |
| `RegexWays.WaysProper` | libc/REGEXP.C:798-851 | in every way an expression matches, both last marks of a group are there or neither, and what is between them matches that group |
| `RegexWays.AltsProper` | libc/REGEXP.C:798-851 | the same for alternatives |
| `RegexCode.OffIs` | libc/REGEXP.C:114 | the two bytes of a "next" pointer read back as the offset |
| `RegexCode.TailPiece` | libc/REGEXP.C:590-611 | following a piece's chain, through its groups and loops, ends at its last node |
| `RegexPatch.OptSteps` | libc/REGEXP.C:409-416 | each patch for x? hits the end of the chain it should, and the bytes are the code of x or nothing |
| `RegexPatch.StarSteps` | libc/REGEXP.C:391-398 | the same for x*, with its BACK node |
| `RegexPatch.PlusSteps` | libc/REGEXP.C:401-408 | the same for x+ |
| `RegexPatch.StringOn` | libc/REGEXP.C:354-355 | hooking a piece to the one before it |
| `RegexPatch.LinkMid` | libc/REGEXP.C:294-311 | linking a new alternative finds the last BRANCH node from the first |
| `RegexPatch.TieMid` | libc/REGEXP.C:314-317 | tying an alternative's operand to the closing node |
| `RegexPatch.TieNext` | libc/REGEXP.C:313-317 | the loop over the BRANCH nodes visits each alternative once and ends at the closing node |
| `RegexCompile.Compiler.RegNode` | libc/REGEXP.C:532-549 | counts or emits three bytes |
| `RegexCompile.Compiler.RegC` | libc/REGEXP.C:553-560 | counts or emits one byte |
| `RegexCompile.Compiler.RegNext` | libc/REGEXP.C:959-972 | the node a "next" pointer leads to, forward or, for BACK, backward |
| `RegexCompile.Compiler.LastOf` | libc/REGEXP.C:601-607 | the walk ends at the last node of the chain |
| `RegexCompile.Compiler.RegInsert` | libc/REGEXP.C:565-586 | the operand moves up three bytes for the new node |
| `RegexCompile.Compiler.RegTail` | libc/REGEXP.C:590-613 | the node at which the chain ends leads to the target, backwards for BACK |
| `RegexCompile.Compiler.RegOptail` | libc/REGEXP.C:617-626 | the same for the operand of a BRANCH node, nothing for other nodes |
| `RegexCompile.Compiler.StrCspn` | libc/REGEXP.C:1063-1086 | computes the run's length |
| `RegexCompile.Compiler.RegBrackets` | libc/REGEXP.C:456-479 | a bracket expression: its characters counted or emitted, or failure, as the grammar says |
| `RegexCompile.Compiler.RegDash` | libc/REGEXP.C:460-473 | a dash is itself before the closing bracket, and else a range or an error |
| `RegexCompile.Compiler.RegRange` | libc/REGEXP.C:469-470 | emits a range |
| `RegexCompile.Compiler.RegClass` | libc/REGEXP.C:448-482 | the node of a bracket expression |
| `RegexCompile.Compiler.RegEscape` | libc/REGEXP.C:497-504 | a backslashed character is a literal |
| `RegexCompile.Compiler.RegRun` | libc/REGEXP.C:505-525 | a run of ordinary characters, one short before an operator |
| `RegexCompile.Compiler.RegCopy` | libc/REGEXP.C:519-523 | emits the run |
| `RegexCompile.Compiler.RegAtom` | libc/REGEXP.C:430-528 | accepts what the grammar accepts and emits the atom's code, with its flags; in the first pass exactly as many bytes are counted |
| `RegexCompile.Compiler.RegSimple` | libc/REGEXP.C:389-400 | a STAR or PLUS node in front of a simple operand |
| `RegexCompile.Compiler.RegOpt` | libc/REGEXP.C:409-416 | emits the code of x? |
| `RegexCompile.Compiler.RegStar` | libc/REGEXP.C:391-398 | emits the code of x* |
| `RegexCompile.Compiler.RegPlus` | libc/REGEXP.C:401-408 | emits the code of x+ |
| `RegexCompile.Compiler.RegPiece` | libc/REGEXP.C:370-421 | the same with an operator |
| `RegexCompile.Compiler.RegBranch` | libc/REGEXP.C:336-360 | the same for an alternative |
| `RegexCompile.Compiler.RegBranches` | libc/REGEXP.C:290-308 | the alternatives are read as the grammar says and linked |
| `RegexCompile.Compiler.RegAlternative` | libc/REGEXP.C:300-307 | one more alternative is hooked to the one before |
| `RegexCompile.Compiler.RegEnds` | libc/REGEXP.C:309-317 | the closing node is added and every alternative leads to it, so that the code is that of the group or of the whole pattern |
| `RegexCompile.Compiler.RegTies` | libc/REGEXP.C:313-317 | every alternative is tied to the closing node, in a loop that ends there |
| `RegexCompile.Compiler.Reg` | libc/REGEXP.C:269-330 | the same for a group or the whole pattern: both passes decide alike, and the second emits exactly what the first counted |
| `RegexPrepare.Longest` | libc/REGEXP.C:240-256 | a longest literal of the main chain, the last of several |
| `RegexPrepare.LeadsToLit` | libc/REGEXP.C:247-253 | from one piece to the next literal the chain passes no EXACTLY node |
| `RegexPrepare.FindMust` | libc/REGEXP.C:244-255 | the walk along the chain finds that literal |
| `RegexPrepare.DigOut` | libc/REGEXP.C:224-257 | regstart, reganch and regmust describe the only alternative, and are empty when there are several |
| `RegexPrepare.RegComp` | libc/REGEXP.C:190-259 | fails exactly on patterns outside the grammar and on programs of 32767 bytes or more; the program is that of the syntax tree |
| `RegexFrames.OkayLater` | libc/REGEXP.C:391-408 | that every loop's turn consumes a character stays true as the input advances |
| `RegexAhead.GroupAhead` | libc/REGEXP.C:798-851 | the ways ahead of a group: its start, one of its alternatives, its end, and what follows |
| `RegexAhead.TurnAhead` | libc/REGEXP.C:401-408 | x and then any number of further turns is x+ |
| `RegexAhead.StarAhead` | libc/REGEXP.C:391-398 | another turn is preferred to none |
| `RegexAhead.OptAhead` | libc/REGEXP.C:409-416 | x is preferred to nothing |
| `RegexAhead.AltsAhead` | libc/REGEXP.C:852-868 | an earlier alternative is preferred to a later one |
| `RegexAhead.SimpleWays` | libc/REGEXP.C:869-896 | for a simple operand the longest run is preferred, then shorter ones, down to the fewest allowed |
| `RegexAhead.LongestPreferred` | libc/REGEXP.C:869-896 | the preferred way of a repeated character is at least as long as any match |
| `RegexSteps.LeafStep` | libc/REGEXP.C:757-793 | a node for ^, $, any character, a class or a text fails, or has the ways ahead that what follows has |
| `RegexSteps.GroupStep` | libc/REGEXP.C:798-824 | an OPEN node adds its mark in front of the ways of what follows |
| `RegexSteps.BackStep` | libc/REGEXP.C:796-797 | a BACK node goes round a loop, with a smaller measure because its turn consumed a character |
| `RegexSteps.PlusBackStep` | libc/REGEXP.C:796-797 | the same for + |
| `RegexSteps.ChoiceOptions` | libc/REGEXP.C:852-868 | the BRANCH nodes of a group offer its alternatives in order, with the ways ahead of one after the other |
| `RegexSteps.OptOptions` | libc/REGEXP.C:852-868 | those of x? offer x and nothing |
| `RegexSteps.StarOptions` | libc/REGEXP.C:852-868 | those of x* offer another turn and nothing |
| `RegexSteps.TailOptions` | libc/REGEXP.C:852-868 | those after x in x+ as well |
| `RegexSteps.LookaheadSound` | libc/REGEXP.C:876-890 | the next-character lookahead skips only attempts that fail |
| `RegexSteps.Dispatch` | libc/REGEXP.C:756-902 | the opcode at a node tells what the node is for |
| `RegexMatch.Matcher.RegRepeat` | libc/REGEXP.C:915-955 | counts and consumes the run |
| `RegexMatch.Matcher.RegNext` | libc/REGEXP.C:959-972 | the node a "next" pointer leads to |
| `RegexMatch.Matcher.InText` | libc/REGEXP.C:784-792 | whether a character is in a text of the program |
| `RegexMatch.Matcher.StrLen` | libc/REGEXP.C:778 | the length of a text of the program |
| `RegexMatch.Matcher.SameText` | libc/REGEXP.C:779 | whether the string continues with a text of the program |
| `RegexMatch.Matcher.Exactly` | libc/REGEXP.C:770-783 | a literal: first character first, then the rest |
| `RegexMatch.Matcher.MatchLeaf` | libc/REGEXP.C:757-793 | decides a single node by comparing characters with the program's bytes |
| `RegexMatch.Matcher.RegMatch` | libc/REGEXP.C:738-911 | terminates on every compiled program, and takes the first of the ways ahead: its end, and for every group its last marks; with none it fails and changes no marks |
| `RegexMatch.Matcher.TryAll` | libc/REGEXP.C:858-865 | takes the first way of the first alternative that has one |
| `RegexMatch.Matcher.Repeat` | libc/REGEXP.C:869-896 | takes the first way after the longest run that has one |
| `RegexMatch.Matcher.Open` | libc/REGEXP.C:798-824 | a group's start is recorded unless a later turn has done so |
| `RegexMatch.Matcher.CloseGroup` | libc/REGEXP.C:825-851 | likewise its end |
| `RegexExec.AnchorSound` | libc/REGEXP.C:679-680 | an anchored expression matches only at the beginning |
| `RegexExec.StartSound` | libc/REGEXP.C:682-688 | a match starts with regstart |
| `RegexExec.MustSound` | libc/REGEXP.C:664-673 | a string that matches contains regmust |
| `RegexExec.Executor.AnyWay` | libc/REGEXP.C:703-727 | a match starts at a position exactly when there is a way to match from there |
| `RegexExec.PreferredCaptures` | libc/REGEXP.C:703-727 | the marks of the preferred way delimit a match and, inside it, matches of the groups that took part |
| `RegexExec.Executor.RegTry` | libc/REGEXP.C:703-727 | succeeds exactly when a match starts there, and startp and endp are those of the preferred one; every group's pair delimits a match of that group |
| `RegexExec.Executor.HasMust` | libc/REGEXP.C:664-673 | finds regmust exactly when it occurs |
| `RegexExec.Executor.StrChr` | libc/REGEXP.C:667-684 | the next place of a character |
| `RegexExec.Executor.RegExec` | libc/REGEXP.C:648-698 | succeeds exactly when a match starts somewhere, as trying every position would; the preferred match at the leftmost start is found |
| `RegexExec.Search` | libc/REGEXP.C:190-727 | regcomp and regexec together, for every pattern and string, without the parser: accepted are exactly the patterns that can be written and whose programs fit; whether something matches, the leftmost start, and there the preferred match with its groups, are those of the tree the pattern was written for |
| `Processes.FamilyKept` | PR1.C:302-344 | steps that only change status, signals or clocks keep numbers distinct and parents alive |
| `Processes.NthPidDistinct` | PR1.C:432-433 | the search for a number does not repeat itself |
| `Processes.HitsBound` | PR1.C:432-439 | and so ends: it meets at most one number per entry |
| `Processes.FirstReadyIs` | PR1.C:349-378 | the scheduler's choice is READY and brings every other READY process closer |
| `Processes.Fair` | PR1.C:349-378 | a process that stays READY is chosen within PTABSIZE calls, whatever happens to the other entries between them |
| `Processes.ForkSound` | PR1.C:383-445 | a fork gives a living parent and a new number |
| `Processes.ExitSound` | PR1.C:462-478 | after an exit no entry names the dead process as parent |
| `Processes.ReapSound` | PR1.C:540 | freeing a dead child's entry leaves no stale parent |
| `Processes.ProcTable.constructor` | PR1.C:79-102 | the first process has number 1 and is its own parent |
| `Processes.ProcTable.PtabAlloc` | PR1.C:417-445 | the first free entry, cleared, with the next number after the last one, going round, that no occupied entry has; none exactly when the table is full |
| `Processes.ProcTable.NewProc` | PR1.C:383-399 | the child takes parent, ignored signals and time slice and becomes current |
| `Processes.ProcTable.DoFork` | MD.C:132-240 | the table after a fork: the first free entry is the child's, with the next free number, parent READY, child RUNNING, one more living process; or failure without trace |
| `Processes.ProcTable.PSleep` | PR1.C:297-325 | PAUSE, WAIT or SLEEP by the event, unless a signal is pending |
| `Processes.ProcTable.Wakeup` | PR1.C:331-344 | whoever waits for the event, in SLEEP, XSLEEP, PAUSE, WAIT, STOPPED or READY, becomes READY and waits for nothing; all other entries stay as they are |
| `Processes.ProcTable.NextReady` | PR1.C:349-378 | the first READY entry after the last choice, going round: none between them is READY |
| `Processes.ProcTable.SwapIn` | MD.C:244-300 | the chosen process becomes RUNNING and current |
| `Processes.ProcTable.SSig` | PR2.C:50-72 | an ignored signal or a dead process is left alone; interruptible sleeps end; the signal becomes pending |
| `Processes.ProcTable.SendSig` | PR2.C:77-90 | the same for one process or all |
| `Processes.ProcTable.ClkInt` | PR2.C:101-137 | alarms once a second; the current process is to be switched out exactly at the end of its time slice, outside the kernel, while it runs |
| `Processes.ProcTable.Alarms` | PR2.C:118-125 | an alarm that runs out sends SIGALRM |
| `Processes.ProcTable.DoExit` | PR1.C:449-499 | the process is a zombie, its children are init's, its parent is woken if it waits for its children |
| `Processes.ProcTable.Orphans` | PR1.C:471-478 | children of the current process, dead or alive, become init's |
| `Processes.ProcTable.DoWait` | PR1.C:506-550 | the first dead child is reaped; without one the caller sleeps, or not, as it asked |
| `OpenFiles.OneSet` | FS.C:637 | changing a descriptor changes the count of the entries it names before and after, by one |
| `OpenFiles.UnusedEntry` | FS.C:785-796 | an entry without references is named by no descriptor |
| `OpenFiles.Referred` | FS.C:984-1001 | an open descriptor names an entry that exists, is referred to and has an inode |
| `OpenFiles.RefsFit` | PR1.C:405-410 | the count fits its 8 bits |
| `OpenFiles.FileTable.OftAlloc` | FS.C:785-800 | the first entry without references, which no descriptor names |
| `OpenFiles.FileTable.UfAlloc` | FS.C:818-830 | the first free descriptor |
| `OpenFiles.FileTable.OftDeref` | FS.C:805-814 | the last reference lets go of the inode |
| `OpenFiles.FileTable.DoClose` | FS.C:625-641 | closes one open descriptor, or fails; counts stay exact |
| `OpenFiles.FileTable.SysOpen` | SC1.C:333-411 | the lowest free descriptor gets the first free entry; every failure leaves both tables as they were |
| `OpenFiles.FileTable.SysDup` | SC1.C:853-864 | the lowest free descriptor is a second one for the entry; counts stay exact |
| `OpenFiles.FileTable.SysDup2` | SC1.C:872-883 | the same for a given descriptor, closing what it was; astray if and only if an open descriptor is given twice |
| `OpenFiles.FileTable.Inherit` | PR1.C:405-410 | fork counts every inherited descriptor |
| `OpenFiles.FileTable.CloseAll` | PR1.C:461-466 | exit closes all |
| `Kernel.Perform` | PR1.C:297-550 | every step does to both tables what Next says of it, and keeps them right, and dead processes without descriptors; dup2 of an open descriptor onto itself is excluded |
| `Kernel.DoFork` | MD.C:132-240 | both tables after a fork: the child has the parent's descriptors |
| `Kernel.DoExit` | PR1.C:449-499 | both tables after an exit: the dead process has none |
| `Kernel.FileStep` | SC1.C:301-883 | what each call on descriptors does to them, the lowest free one being taken, with both tables right and no increment astray |
| `Kernel.ProcStep` | PR1.C:297-550 | what the other steps do to the process table; they kill nobody |
| `Kernel.WakeStep` | PR2.C:50-90 | wakeups and signals |
| `Kernel.TurnStep` | PR1.C:297-378 | sleeping, the clock, and switching |
| `Kernel.ReapStep` | PR1.C:506-550 | waiting for a child |
| `Kernel.Run` | PR1.C:383-550 | any run from the start of the system, step by step; afterwards distinct positive numbers, living parents, ptotal exact, every o_refs the number of descriptors naming the entry, no descriptor naming an unused entry |

## Left out

- Volumes.Volume.IDeref: on a volume mounted for writing; the number of a device inode is 0 or in the data region, because `validblk` panics otherwise, and its other pointers are 0. Inodes are read from the device at a mount; of `wr_inode` only the clearing of the dirty mark is modelled.
- Volumes.Volume.FTrunc: the same; on a read-only volume the kernel does not get here.
- Volumes.Volume.FreeBlk: called for a volume mounted for writing; on a read-only one every `blk_free` in it does nothing (`Volumes.Volume.BlkFree`).
- Volumes.Volume.FreeDirects: the same.
- Volumes.Volume.FreeFile: the same.
- Volumes.Volume.Bmap: a read-only volume is only mapped for reading; `readwritei` refuses to write to its inodes before.
- Mkfs.Format: the boot block and the free-inode list of the superblock are not modelled.
- OpenFiles.FileTable.SysOpen: truncating the file and waiting on a pipe with one end are not modelled.
- VolumeRuns.Mount: the tests for the device and for a free place in the mount table are not modelled.
- VolumeRuns.Run: on a volume that is mounted for writing; transfers on device inodes and pipes are left out.
- VolumeRuns.DrainedFile: creating and unlinking a file are not modelled; its inode is put in place.
- VolumeRuns.DeviceDropped: mknod and unlinking are not modelled; the inode is put in place.
- Kernel.Run: dup2 of an open descriptor onto itself is left out, because the byte it increments is in none of the modelled tables.
- Kernel.Perform: the same.
- Kernel.FileStep: the same.
- Volumes.Volume.ReadWriteI: pipes and devices, the user's address space and disk faults are not modelled; what is moved is below 32768 bytes and within 65536 blocks.
- Volumes.Volume.TruncateTo0: the positions of open-file entries are not modelled, so resetting them is not either.
- Processes.ProcTable.DoWait: waiting for one particular process is not modelled; that branch repeats its test without moving on.
- Processes.ProcTable.PSleep: the switch to another process is the separate step SwapIn; with a signal pending the process stays RUNNING, so no claim is made that only one process runs.
- Processes.ProcTable.NextReady: entered with no RUNNING and some READY process; otherwise the kernel panics or waits for an interrupt.
- Processes.ProcTable.DoExit: init does not exit; tick counts are not modelled, only what they leave in the alarm field.
- RegexPrepare.RegComp: memory for the program is always available.
- BufferCache.BufPool.Run: buffers pinned by `bf_prio`, which no code sets, and buffers of zeros held across other calls are left out.
- The storage operations work on the block store directly; that the buffer cache behaves like one, also for several blocks held at a time, is proved separately.
- Disk faults, and the waiting of freebuf for a buffer.
- Inode allocation and its free list, path names, permissions, mounting beyond the superblock, timestamps, directories' contents.
- fsck's other passes, which index the double indirect level differently from bmap.
- Context switching, memory banking, drivers, and the code that loads programs.
- User and group numbers, priorities and signal handlers.
- regsub, regerror, debugging output, and messages.
- MALLOC, stdio, strings other than what regexec uses, and the other library routines.
