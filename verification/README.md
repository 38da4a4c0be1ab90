# octox in Dafny

A Dafny model of the parts of the octox kernel (and of its image builder) whose correctness is an argument over
whole runs, with proofs of what those parts promise. `dafny verify dfyconfig.toml` checks everything. Nothing here
executes the kernel.

## What is modelled

**Buddy allocator** (`src/kernel/buddy.rs`, `src/kernel/list.rs`).
`BlockTree` is the binary tree of blocks as values: the alloc and split bits and the free lists, four local steps
(take, split, merge, release) and the buddy invariant. `BuddyOps` composes the steps into alloc and dealloc and proves
the invariant, the tiling of the arena by used and free blocks, maximal coalescing, conservation, and that dealloc
undoes alloc down to the order of the lists. `BuddyInit` and `BuddyMeta` treat the start state: how much metadata there
is, why no pair is pushed twice, why the self-check of `init` cannot fire. `ListHeap` is the intrusive circular list over
a shared memory of links, `BitArray` the packed bitmaps, `BuddyRep` the relation between memory and tree, and
`BuddyAllocator` the class with the loops of the source. `BuddyRuns` states what callers get over every run, and
`BuddyAlign` exactly which alignments they get.

**Redo log** (`src/kernel/log.rs`). `LogDisk` says what a disk means: the home blocks a completed recovery would leave.
`LogBudget` counts the writes operations have left. `RedoLog` is the log as a class over a device that records the disk
after every single block write. `LogProtocol` is the same protocol as a transition system with any number of operations,
each disk write a step, and crashes anywhere, recovery included; the class commits by exactly these steps.

**Sv39 page tables** (`src/kernel/vm.rs`). `Sv39` relates the three-level tree to a flat map from pages to entries
(the Sv39 scheme of the RISC-V privileged architecture). `Hardware` is the machine's own walk over the words in memory,
and that it agrees. `TablePages` counts the tables a range lacks. `PageTable` is one address space with walk, mappages,
unmap, and growing and shrinking. `UserCopy` is copyout and copyin over physical bytes.

**Image builder** (`src/mkfs/main.rs`). `FsWords` is little-endian words and inodes in sectors, `FsImage` the contents
of a file and the ownership of blocks, `MkFs` the class with ialloc, iappend and balloc.

**Synchronisation** (`src/kernel/mpmc.rs` with `semaphore.rs`, `rwlock.rs`, `sync.rs`): `Channel`, `RwLock` and `Once`
are step machines with any number of threads. **Console** (`src/kernel/console.rs`): a ring with wrapping indices that
refines a queue, and runs of typing and reading.

## Where the code and its comments differ

The model follows the code.

- `firstk` gives the least class with blocks of at least n bytes (the comment says more than n), and only for n above 8;
  for smaller n it is 64 and `alloc` panics on its slice. `BuddyRuns.PanicIff` gives the exact condition.
- `alloc` looks at the size only. An alignment larger than the block size is not met in general
  (`BuddyAlign.MisalignedRun`); up to the block size it always is (`BuddyRuns.RunAligned`). `BuddyAlign.AlignedIff` puts
  the two together.
- A log area of LOGSIZE blocks, as mkfs lays it out, is one block too small: a write within its operation's limit can
  panic (`LogProtocol.SmallLogPanics`); with more than LOGSIZE blocks none does (`LogProtocol.NoPanic`).
- `ialloc` does not check the inode number against the inode blocks. An inode stays clear of the bitmap and of file
  blocks exactly if its number is below 208 (`MkFs.PastTheTable`); the next sixteen are lost when the bitmap is written
  (`MkFs.BitmapLosesInodes`), and from 224 on a file is hit exactly if it uses the block (`MkFs.InodeMisses`).
- A writer that sets the flag of the reader-writer lock and then finds a reader leaves the flag set
  (`RwLock.FlagCanStick`), for good (`RwLock.StuckForever`). The flag is left behind exactly on the runs in which some
  such second test fails (`RwLock.StuckExactly`).
- The console erases on 0x7f only: `ctrl('H') | 0x7f` is 0x7f, so control-H is stored like any byte.

## Modelling choices

- Integers are unbounded unless wrapping matters: the console's indices wrap at 64 bits; addresses are assumed not to
  overflow. Shifts and masks on page-table entries and addresses are written as division and remainder.
- Atomics are sequentially consistent. `Process::sleep` releases its lock and sleeps in one step, `wakeup` wakes all
  sleepers (src/kernel/proc.rs:440-441, src/kernel/proc.rs:570-571).
- Panics and process exits are results (`Panic`, `MapPanic`, `Died`, ...), never preconditions. Preconditions are what
  the code leaves to its callers: memory freed was handed out, a node pushed is on no list, a logged block is outside the
  log area, begin and end are balanced, a page freed by unmap is owned.
- The buffer cache is the map of pinned buffers; writing a buffer is one atomic block write. Free pages for page tables
  and user data come from a list that may run out.

## Model

| member | source | states |
|---|---|---|
| BlockTree.TakeInv | src/kernel/buddy.rs:146-151 | popping a free block and setting its alloc bit keeps the buddy invariant: bits and lists agree, no two free buddies |
| BlockTree.SplitInv | src/kernel/buddy.rs:152-162 | splitting a used block keeps the invariant and leaves the left half used |
| BlockTree.MergeInv | src/kernel/buddy.rs:200-209 | merging a used block with its free buddy keeps the invariant and makes the parent used |
| BlockTree.ReleaseInv | src/kernel/buddy.rs:195-213 | releasing a used block whose buddy is in use keeps the invariant |
| BuddyOps.Partition | src/kernel/buddy.rs:25-35 | every leaf of the arena lies in exactly one used or free block |
| BuddyOps.UsedApart | src/kernel/buddy.rs:121-167 | a used block shares no leaf with any other used or free block |
| BuddyOps.FreeApart | src/kernel/buddy.rs:121-167 | two free blocks share no leaf |
| BuddyOps.AllocCorrect | src/kernel/buddy.rs:121-167 | alloc keeps the invariant and adds exactly one used block, of the class asked for, that was not in use |
| BuddyOps.SplitDownLists | src/kernel/buddy.rs:152-162 | splitting keeps the first leaf of the block, lists the right half of every class on the way, and touches no other list |
| BuddyOps.BestFit | src/kernel/buddy.rs:131-162 | alloc pops the front block of the smallest class that has one and is large enough, hands out its first part, and leaves the lists above that class, and below the class asked for, alone |
| BuddyOps.LargerStillServed | src/kernel/buddy.rs:131-140 | so a request that fits a smaller free block takes nothing from larger classes: they can serve exactly what they could |
| BuddyOps.FreeCorrect | src/kernel/buddy.rs:186-215 | dealloc keeps the invariant and takes exactly the freed block out of use, however far it merges, as long as another block (the metadata always is one) is in use |
| BuddyOps.SizeOfUsed | src/kernel/buddy.rs:169-182 | the split bits alone give the class of a used block, from any leaf in it |
| BuddyOps.MergeStopsBelowRoot | src/kernel/buddy.rs:192-210 | as long as one other block is in use, merging never reaches the root |
| BuddyOps.RoundTrip | src/kernel/buddy.rs:121-215 | dealloc right after alloc restores every bit and every free list, order included, and size finds the class alloc chose |
| BuddyOps.MaximalCoalescing | src/kernel/buddy.rs:186-215 | wholly free memory of a class lies inside one free block of that class or above |
| BuddyOps.AllocComplete | src/kernel/buddy.rs:121-145 | alloc fails if and only if no block of the class needed is wholly free |
| BuddyOps.AllocLeaves | src/kernel/buddy.rs:121-167 | alloc takes exactly the block's leaves from the free lists |
| BuddyOps.FreeUpLeaves | src/kernel/buddy.rs:186-215 | dealloc puts exactly the block's leaves back, merged or not |
| BuddyInit.InitInv | src/kernel/buddy.rs:217-280 | the bits mark leaves and the lists initfree leaves satisfy the buddy invariant |
| BuddyInit.TouchedMeans | src/kernel/buddy.rs:217-236 | a block is marked if and only if it overlaps the metadata or the unavailable tail |
| BuddyInit.MarksAreTouched | src/kernel/buddy.rs:282-304 | the two index ranges that mark uses cover exactly the touched blocks |
| BuddyInit.InitFreeTotal | src/kernel/buddy.rs:266-280 | the free lists start with exactly the leaves between metadata and tail, by a sum that telescopes over the classes |
| BuddyInit.PairsDiffer | src/kernel/buddy.rs:263-280 | metadata of at most a quarter of the arena keeps the two pairs of a class apart, so none is pushed twice |
| BuddyInit.PairsAtCuts | src/kernel/buddy.rs:238-280 | looking at the two pairs at the cuts finds all free blocks of the class, each once |
| BuddyMeta.MetaIsAQuarter | src/kernel/buddy.rs:316-346 | records and bitmaps of every arena of whole pages take at most a quarter of it |
| BuddyMeta.Log2 | src/kernel/buddy.rs:377-384 | the halving loop computes the integer logarithm |
| BuddyRep.ChooseSizes | src/kernel/buddy.rs:316-320 | the number of classes is the least whose largest block holds the arena |
| BuddyRep.FirstKSpec | src/kernel/buddy.rs:88-91 | firstk is the least class that holds n bytes for n above 8, and 64 below |
| BuddyRep.IndexIsAt | src/kernel/buddy.rs:93-95 | the index computed from an address is that of the tree's block around it |
| BuddyRep.IndexIsCut | src/kernel/buddy.rs:93-107 | indices rounded down and up from an address are the cuts of its leaf number |
| BitArray.SetChangesOne | src/kernel/buddy.rs:42-65 | setting or clearing a packed bit changes that bit and no other |
| ListHeap.Heap.Init | src/kernel/list.rs:13-16 | makes an empty ring and leaves all other rings alone |
| ListHeap.Heap.IsEmpty | src/kernel/list.rs:18-20 | a head that points to itself means an empty list |
| ListHeap.Heap.Remove | src/kernel/list.rs:22-25 | unlinking a node removes it from its list and changes no other list |
| ListHeap.Heap.Pop | src/kernel/list.rs:27-34 | returns and unlinks the front node, or None if empty |
| ListHeap.Heap.Push | src/kernel/list.rs:36-47 | puts a node in front and changes no other list |
| ListHeap.RemoveLinks | src/kernel/list.rs:22-25 | the two pointer writes of remove leave the ring of the remaining nodes |
| ListHeap.PushLinks | src/kernel/list.rs:36-47 | the pointer writes of push leave the ring with the new node in front |
| BuddyAllocator.BuddyAllocator.Alloc | src/kernel/buddy.rs:121-167 | bitmaps and lists change as the tree's alloc does; None before init, for alignment above a page, and when no block is free; panics only on the slice |
| BuddyAllocator.BuddyAllocator.FindFree | src/kernel/buddy.rs:132-140 | finds the first class with a free block |
| BuddyAllocator.BuddyAllocator.Size | src/kernel/buddy.rs:170-182 | the scan over the split bitmaps computes the tree's size |
| BuddyAllocator.BuddyAllocator.Dealloc | src/kernel/buddy.rs:186-215 | on memory handed out, bitmaps and lists change as the tree's dealloc does; before init nothing changes |
| BuddyAllocator.BuddyAllocator.Mark | src/kernel/buddy.rs:217-236 | marks exactly the blocks of every class that overlap the range |
| BuddyAllocator.BuddyAllocator.InitFreePair | src/kernel/buddy.rs:240-261 | puts the free half of a half-marked pair on its list and returns its bytes |
| BuddyAllocator.BuddyAllocator.InitFree | src/kernel/buddy.rs:266-280 | leaves the lists of the start state and returns the bytes on them |
| BuddyAllocator.BuddyAllocator.Init | src/kernel/buddy.rs:307-367 | for every arena with a whole page: returns Ok (the self-check never fires), establishes the invariant and the start state; a second call is refused and changes nothing |
| BuddyRuns.StartGood | src/kernel/buddy.rs:307-367 | the start state has nothing live and all memory accounted for |
| BuddyRuns.RunGood | src/kernel/buddy.rs:121-215 | every sequence of requests and frees keeps the invariant, the reserved leaves, and the account of live blocks |
| BuddyRuns.RunSafe | src/kernel/buddy.rs:121-215 | on every run live blocks are pairwise disjoint, past the metadata, inside the arena and big enough, and free plus live bytes are what was free after init |
| BuddyRuns.FreeingFrees | src/kernel/buddy.rs:186-215 | freeing a live address takes exactly its block out of the live ones and out of use |
| BuddyRuns.RequestsServed | src/kernel/buddy.rs:121-167 | a supported request gets a new live block of its class exactly if some block of that class is wholly free; otherwise nothing changes |
| BuddyRuns.BigAlignmentRefused | src/kernel/buddy.rs:125-127 | a request aligned to more than a page changes nothing |
| BuddyRuns.RunAligned | src/kernel/buddy.rs:125-130 | on every run a request whose class is at least its alignment gets an aligned address |
| BuddyRuns.MultipleSuffices | src/kernel/buddy.rs:128-130 | a size that is a multiple of the alignment meets that condition |
| BuddyRuns.TwoHalves | src/kernel/buddy.rs:146-162 | two requests in a row on a class that must be split get the two halves of one block |
| BuddyAlign.ExhaustedIsLive | src/kernel/buddy.rs:121-167 | once requests of a class have taken all there is, every block of it between metadata and tail is live |
| BuddyAlign.MisalignedRun | src/kernel/buddy.rs:125-133 | in every arena of whole pages, a supported request with a power-of-two alignment above its block size is answered at a misaligned address on some run from the start |
| BuddyAlign.AlignedIff | src/kernel/buddy.rs:125-133 | so a request is aligned on every run if and only if its blocks are at least as large as its alignment |
| BuddyRuns.PanicIff | src/kernel/buddy.rs:133-135 | with an allowed alignment, alloc panics exactly for at most 8 bytes or for more than twice the largest block |
| BuddyRuns.LiveAddressDecodes | src/kernel/buddy.rs:169-188 | a live address alone names its block again |
| LogDisk.ApplyAgree | src/kernel/log.rs:86-97 | copying blocks makes the result independent of what they held before and leaves the others |
| LogDisk.Reapply | src/kernel/log.rs:72-97 | a group installed in part can be installed again from the start |
| LogDisk.PartlyInstalled | src/kernel/log.rs:86-97 | a disk with the first blocks of a group installed means the same as before |
| LogDisk.CommitMeans | src/kernel/log.rs:86-127 | of the disks a commit passes through, all before the header write mean the old home blocks, all from it on mean the new ones, and the last one holds them with a clear header |
| RedoLog.Log.InstallTrans | src/kernel/log.rs:86-97 | installs the group; every disk on the way means the same |
| RedoLog.Log.WriteLog | src/kernel/log.rs:109-117 | copies the pinned buffers to the log; every disk on the way still means the old home blocks |
| RedoLog.Log.Commit | src/kernel/log.rs:119-127 | the disk goes through exactly the block writes of CommitTrace; one point divides them: a crash before it recovers to the state without the group, a crash after it to the state with the whole group, and the home blocks end up with it |
| RedoLog.Log.constructor | src/kernel/log.rs:55-84 | recovery leaves what the disk means in the home blocks and a clear header; a crash inside it changes nothing |
| RedoLog.Log.BeginOp | src/kernel/log.rs:139-155 | sleeps while others enter, write and leave; enters at once exactly if there is room, leaves with a full reservation that still fits, keeps sleeping only with the log full or committing, and is let in at the latest when all others have left |
| RedoLog.Log.Perform | src/kernel/log.rs:139-219 | what another thread does meanwhile: entering adds an operation if there is room, leaving takes one out and the last to leave empties the log, writing logs or panics |
| RedoLog.Log.TryBegin | src/kernel/log.rs:142-153 | one round of that loop keeps space reserved for every write still due; an idle log always admits |
| RedoLog.Log.Write | src/kernel/log.rs:199-219 | absorbs a block already logged, appends a new one, panics exactly when the log is full, too small or outside an operation; with more than LOGSIZE log blocks and all operations within their limit, never |
| RedoLog.Log.EndOp | src/kernel/log.rs:159-189 | gives back what the operation did not write; the last operation to end commits the group, with the same promise for every crash point |
| LogProtocol.StepKeeps | src/kernel/log.rs:72-219 | every step of every operation, of commit, crash and recovery keeps the protocol's invariant |
| LogProtocol.CrashAtomic | src/kernel/log.rs:72-127 | after any steps and crashes a recovery would leave exactly the committed groups; while operations run the home blocks are that |
| LogProtocol.WholeOperations | src/kernel/log.rs:11-23 | a committed group holds all writes of each of its operations, and they have ended |
| LogProtocol.CommittedStay | src/kernel/log.rs:99-107 | committed groups survive every later step and crash, in order |
| LogProtocol.AllWritesCommitted | src/kernel/log.rs:159-189 | when the log is idle, the writes since the last crash are the committed groups since then, none missing and in order |
| LogProtocol.BeginEnters | src/kernel/log.rs:139-155 | outside a commit an operation can begin exactly if all running ones and itself could still write their limit; it is then one more, with its whole limit left |
| LogProtocol.WriteLogs | src/kernel/log.rs:199-219 | a write changes the cache and, for a new block, the log; the disk stays |
| LogProtocol.EndLeaves | src/kernel/log.rs:159-181 | ending takes exactly that operation out, and only the last one to end starts a commit |
| LogProtocol.CrashForgets | src/kernel/log.rs:72-77 | a crash is possible in every state and leaves the disk and nothing else |
| LogProtocol.RecoveryCompletes | src/kernel/log.rs:72-97 | from every reachable crash, recovery runs through in two steps more than the header names blocks: the home blocks are the committed groups, the header is clear, and operations are admitted |
| LogProtocol.RecoveryAgain | src/kernel/log.rs:72-97 | a crash after any number of its steps leaves a state from which it runs through again, to the same home blocks |
| LogProtocol.CommitCompletes | src/kernel/log.rs:119-127 | from every state inside a commit, the commit runs through: the group is committed once, the log is empty and admits operations |
| LogProtocol.AlongStart | src/kernel/log.rs:159-181 | the end of the last operation starts the commit of the class, on the same disk, header and contents |
| LogProtocol.AlongStep | src/kernel/log.rs:109-127 | each block write of the commit of the class is the next step of the protocol, to the same effect |
| LogProtocol.NoPanic | src/kernel/log.rs:139-206 | with more than LOGSIZE log blocks no write within its operation's limit panics, in any interleaving |
| LogProtocol.SmallLogPanics | src/kernel/log.rs:199-206 | with 1 to LOGSIZE log blocks, mkfs's choice included, some run with every operation within its limit reaches that panic |
| LogProtocol.Exclusion | src/kernel/log.rs:139-189 | commit runs with no operation outstanding, logged blocks are distinct, the reservation holds, an idle log admits |
| LogProtocol.CommitPointDisk | src/kernel/log.rs:99-107 | writing the header turns the pending writes, and nothing else, into a committed group |
| LogProtocol.InstallKeeps | src/kernel/log.rs:86-97 | installing one block keeps the meaning of the disk, in commit and in recovery |
| LogProtocol.ClearKeeps | src/kernel/log.rs:72-77 | clearing the header after all blocks are installed keeps the meaning |
| Sv39.PteRoundTrip | src/kernel/vm.rs:254-280 | an entry gives back the page address and the flags it was made from |
| Sv39.PxInjective | src/kernel/vm.rs:157-159 | below MAXVA the three indices determine the page |
| Sv39.StoreEntry | src/kernel/vm.rs:313-332 | storing a level-0 entry changes the translation of its page and of no other |
| Sv39.LinkTable | src/kernel/vm.rs:323-329 | hanging a new zeroed table in the tree changes no translation |
| Sv39.TablesNeverAlias | src/kernel/vm.rs:313-332 | walks share a level-0 table exactly if their upper indices agree, and it is never an upper table |
| Hardware.MachineAgrees | src/kernel/vm.rs:313-332 | for every address below MAXVA the walk of the machine over the words in memory, by bit positions, gives the page the flat view names if its entry is readable, or executable and not writable, and faults otherwise |
| TablePages.LinkFills | src/kernel/vm.rs:323-329 | hanging a table fills its place in the tree and no other |
| TablePages.StoreAddsNone | src/kernel/vm.rs:367-378 | storing an entry adds no table |
| TablePages.MissingMore | src/kernel/vm.rs:313-332 | the tables missing for a range are those missing for its first pages and those its last page then still lacks |
| PageTable.Space.constructor | src/kernel/vm.rs:446-453 | a zeroed root page gives an empty address space: no address translates |
| PageTable.Space.Walk | src/kernel/vm.rs:313-332 | panics exactly from MAXVA on; else finds the slot of va, or None for lack of a table; when allocating, it takes exactly the missing tables and fails only with fewer free pages than those; changes no translation |
| PageTable.Space.MapOne | src/kernel/vm.rs:367-378 | panics exactly if the page is taken or beyond MAXVA; on success that page alone changes its translation, else none does, and only for lack of pages for tables |
| PageTable.Space.MapPages | src/kernel/vm.rs:353-379 | on success exactly the pages of the range map to consecutive frames with the flags, and the missing tables are what was taken; else exactly a prefix does, and the reason is named |
| PageTable.RangePagesAre | src/kernel/vm.rs:353-379 | the pages of a range are those with a byte of it in them |
| PageTable.MappedEntry | src/kernel/vm.rs:367-378 | bit by bit, the entry mappages makes: valid, the flags asked for, the page number from bit 10 up |
| PageTable.GrownEntry | src/kernel/vm.rs:492-499 | bit by bit, the entry of a grown page: valid, readable, for users, writable and executable exactly as asked |
| PageTable.NewPagesAre | src/kernel/vm.rs:482-483 | the pages growing adds are those that start at or above the old size and below the new one |
| PageTable.Space.Unmap | src/kernel/vm.rs:421-444 | removes exactly the pages of the range; with the flag their frames, and else nothing, go back on the free list, and no page of the space is lost; panics exactly at the first page without a leaf |
| PageTable.Space.Alloc | src/kernel/vm.rs:477-508 | grows by fresh pages, taking exactly the data pages and the missing tables; out of memory only with fewer free pages than those, and then translations and owned frames are as before and all but the tables hung is free again; panics only at a page taken or beyond MAXVA |
| PageTable.Space.Dealloc | src/kernel/vm.rs:514-524 | succeeds exactly if all pages between the two rounded sizes have a leaf, and then removes exactly those and puts exactly their frames back on the free list |
| PageTable.Space.GrowAndShrink | src/kernel/vm.rs:477-524 | growing then shrinking back restores translations and owned frames, aligned or not, and so does growing that fails; the free list is short exactly by the tables hung |
| PageTable.ShrinkUndoesGrow | src/kernel/vm.rs:477-524 | unmapping what was grown gives the flat view from before |
| PageTable.GrownOwned | src/kernel/vm.rs:483-506 | the grown pages are mapped to the new frames, one each |
| UserCopy.Memory.WalkAddr | src/kernel/vm.rs:337-347 | the frame of a valid user page below MAXVA, else None |
| UserCopy.Memory.MapThenWalk | src/kernel/vm.rs:337-379 | a page just mapped is found at its frame exactly if it was mapped with the user bit |
| UserCopy.Memory.CopyOut | src/kernel/vm.rs:594-611 | succeeds if and only if the whole range is user memory; then, with distinct frames, the range reads as the source; no byte behind other addresses changes |
| UserCopy.Memory.CopyIn | src/kernel/vm.rs:618-634 | succeeds if and only if the whole range is user memory, and returns its bytes |
| UserCopy.Memory.CopyOutIn | src/kernel/vm.rs:594-634 | with distinct frames, copyin after copyout returns the same bytes for every length and offset |
| UserCopy.ChunkWritten | src/kernel/vm.rs:598-609 | writing one page's part keeps what was written before it |
| UserCopy.PhysDistinct | src/kernel/vm.rs:337-347 | with distinct frames different user addresses have different bytes behind them |
| FsWords.DecodeEncode | src/mkfs/main.rs:140-146 | little-endian words written to a sector are read back |
| FsWords.LittleEndian | src/mkfs/main.rs:140-146 | the words of a sector are what a little-endian machine reads from its bytes |
| FsWords.InodeLayout | src/mkfs/main.rs:258-268 | at which byte of the sector each field of an inode lies |
| FsWords.InodeWritten | src/mkfs/main.rs:56-74 | writing one inode of a block leaves the other fifteen alone |
| FsImage.NewDirect | src/mkfs/main.rs:129-134 | giving a file a new direct block keeps single ownership of blocks and the file's contents |
| FsImage.NewIndex | src/mkfs/main.rs:136-139 | so does a new, zeroed index block |
| FsImage.NewIndirect | src/mkfs/main.rs:140-146 | so does a new entry in it, for every file |
| FsImage.Appended | src/mkfs/main.rs:148-155 | writing at the end of the file appends exactly those bytes and changes no other file |
| FsImage.TightNeeds | src/mkfs/main.rs:126-147 | the blocks to allocate before appending within one block are the difference in blocks the two sizes need |
| FsImage.TightGrows | src/mkfs/main.rs:126-157 | and the file again has exactly the blocks its size needs |
| FsImage.NoSharing | src/mkfs/main.rs:114-159 | data and index blocks of all files are distinct and lie between the metadata and the first free block |
| FsImage.FileByte | src/mkfs/main.rs:126-156 | which byte of which block each byte of a file is, directly and through the index block |
| MkFs.FsImg.Rinode | src/mkfs/main.rs:66-74 | reads the inode last written, for a number past the inode blocks whatever lies there, and dies past the image |
| MkFs.FsImg.Winode | src/mkfs/main.rs:56-64 | changes one slot of one block, for every number up to the end of the image; the inode table stays right |
| MkFs.FsImg.Ialloc | src/mkfs/main.rs:89-98 | what is read back is an inode of the type asked for, with one link, no bytes and no blocks; below inode 208 it is a new empty file; below 224 all files stay as they were and the image stays valid; beyond that one slot of one block is written, or the read past the image dies |
| MkFs.PastTheTable | src/mkfs/main.rs:56-64 | an inode is written clear of the bitmap and all file blocks exactly if its number is below 208, and into the bitmap exactly for 208 to 223 |
| MkFs.BitmapLosesInodes | src/mkfs/main.rs:89-112 | no slot of a bitmap that balloc writes reads as an inode with minor number 0 and a link, as all inodes of mkfs are, however many blocks are used |
| MkFs.FsImg.IallocThenBalloc | src/mkfs/main.rs:89-112 | a file allocated with number 208 to 223 is there, with its link, and gone once the bitmap is written |
| MkFs.InodeMisses | src/mkfs/main.rs:56-64 | an inode written past the bitmap leaves a file as it is unless the file uses the block, and then it is the one owner |
| MkFs.InodeOverData | src/mkfs/main.rs:56-64 | a whole data block of a file that is hit reads as the sector with the inode in it |
| MkFs.InodeOverIndex | src/mkfs/main.rs:56-64 | an index block that is hit points where the words of the inode say |
| MkFs.FsImg.Iappend | src/mkfs/main.rs:114-159 | on success the file reads as before followed by the data, all other files are unchanged, ownership holds, and exactly the blocks needed were taken; it dies exactly if these blocks (up to the size limit) are not left, and else stops exactly at the size limit |
| MkFs.FsImg.NewFile | src/mkfs/main.rs:89-159 | a file allocated, filled and read back has its type, one link, exactly its bytes, and changes no other file |
| MkFs.BitSetIs | src/mkfs/main.rs:105-109 | block i is bit i % 8, counted from the lowest, of byte i / 8 of the bitmap |
| MkFs.FsImg.Balloc | src/mkfs/main.rs:100-112 | the bitmap marks exactly the first used blocks, and no file changes |
| Channel.StepInv | src/kernel/mpmc.rs:13-40 | every step keeps the count of slots, the order of items and the wake-ups |
| Channel.ChannelSafe | src/kernel/mpmc.rs:13-40 | on every run items leave in the order they came, the bound holds, post's assertion holds, nobody sleeps past work |
| Channel.OutAsIn | src/kernel/mpmc.rs:13-40 | on every run the items receivers return with are, in order, the first of the items given to send in the order of the pushes; with the buffer unlocked the rest is buffered |
| Channel.SendCompletes | src/kernel/mpmc.rs:14-19 | with a slot left and the buffer unlocked a send runs through, appends its item and wakes the receivers |
| Channel.ReceiveTakes | src/kernel/mpmc.rs:30-36 | with an item there and the buffer unlocked a receive takes the first one |
| Channel.ReceiveReturns | src/kernel/mpmc.rs:34-36 | and returns, giving back its slot and waking the senders |
| Channel.Exclusive | src/kernel/mpmc.rs:15-33 | at most one thread holds the buffer |
| Channel.StepCounts | src/kernel/semaphore.rs:19-34 | the semaphore's count is the buffered items plus the slots in transit |
| RwLock.StepInv | src/kernel/rwlock.rs:56-136 | every atomic step keeps the invariant, and the drop assertions hold, also for the read guard an upgrade drops |
| RwLock.Exclusion | src/kernel/rwlock.rs:56-136 | in every interleaving at most one write guard, and beside it no read guard |
| RwLock.ReadGrants | src/kernel/rwlock.rs:56-68 | undisturbed, a reader gets its guard exactly if the flag is clear, and otherwise leaves the count as it was |
| RwLock.WriteGrants | src/kernel/rwlock.rs:79-94 | undisturbed, a writer gets its guard exactly if the flag is clear and there is no reader |
| RwLock.UpgradeGrants | src/kernel/rwlock.rs:107-121 | undisturbed, exactly the only reader becomes the writer |
| RwLock.DropReleases | src/kernel/rwlock.rs:124-136 | dropping a guard undoes what taking it did to flag and count |
| RwLock.FlagCanStick | src/kernel/rwlock.rs:79-94 | a run after which the flag is set and nobody holds a guard |
| RwLock.StuckExactly | src/kernel/rwlock.rs:79-121 | on every run the flag is set without an owner if and only if some second test of a writer or an upgrade failed; otherwise it is clear whenever no guard is left |
| RwLock.NoNewGuards | src/kernel/rwlock.rs:56-121 | once it is left behind, no write guard exists any more and no read guard is added, for the rest of the run |
| RwLock.StuckForever | src/kernel/rwlock.rs:56-94 | from such a state no guard is ever given out again |
| Once.StepInv | src/kernel/sync.rs:250-298 | every step keeps one owner at most and the cell fixed once complete |
| Once.CompleteIsStable | src/kernel/sync.rs:245-297 | once complete, the state word, the value and who supplied it never change |
| Once.OneValue | src/kernel/sync.rs:54-97 | all who get a value get the same one; the guard's assertion holds |
| Once.OneSetSucceeds | src/kernel/sync.rs:68-75 | of any number of set calls racing with each other and with gets, all returned, exactly one returned Ok, and its value is the cell's |
| Once.CallAfterCompletion | src/kernel/sync.rs:54-97 | a call begun after completion runs no initialiser, never comes back empty-handed or failed, and comes back with the value of the cell |
| Once.LateCallReturns | src/kernel/sync.rs:54-97 | it does so in three steps |
| Once.EarlyGet | src/kernel/sync.rs:54-60 | a get before completion finds nothing |
| Once.Enters | src/kernel/sync.rs:250-268 | undisturbed, a call finds its way to the initialiser, also after a failure |
| Once.OwnerFinishes | src/kernel/sync.rs:269-298 | a value completes the cell, a failure poisons it and changes no value |
| Once.LazyNeverPoisoned | src/kernel/sync.rs:172-179 | with initialisers that neither fail nor panic, the poisoned arm is unreachable |
| Console.TypedOk | src/kernel/console.rs:122-167 | the queue fits the ring, an unfinished line holds no end of line, committed bytes are never retracted |
| Console.EditingUndoes | src/kernel/console.rs:127-142 | for typing that fits the ring: kill-line erases exactly what was typed since the last commit, erase exactly the last byte of it |
| Console.LineCommits | src/kernel/console.rs:143-164 | a line that fits the ring is committed whole and in order, carriage return as newline |
| Console.LastPlaceCommits | src/kernel/console.rs:143-164 | the byte that fills the ring commits all of it, whatever byte it is |
| Console.LongLine | src/kernel/console.rs:143-164 | of a line too long for the ring the part that fits is committed and the rest is lost |
| Console.CommandsAlways | src/kernel/console.rs:124-142 | the editing commands work however full the ring is |
| Console.TakenInOrder | src/kernel/console.rs:50-167 | on every run of typing and taking, the bytes taken and the bytes still ready are together exactly what the keystrokes committed, in order |
| Console.RoomyRun | src/kernel/console.rs:122-167 | as long as the ring has room, what is committed is what a line editor without ring or readers makes of the keystrokes, whenever they are read |
| Console.Cons.Intr | src/kernel/console.rs:122-167 | the ring with wrapping indices does what the queue does |
| Console.Cons.Read | src/kernel/console.rs:50-93 | the run goes on by the arrivals used and the bytes taken, which are those delivered and a lone end of input or the byte of a failed copy; it sleeps only when all ready bytes are delivered, and stops after a newline, before an end of input unless it is first, when filled, or at a failed copy |
| Console.Cons.Session | src/kernel/console.rs:50-167 | any sequence of typing and reading delivers, in order and without loss as long as no copy fails, a prefix of what was committed, end-of-input bytes apart |
| Console.HoldsMore | src/kernel/console.rs:150-153 | storing at the edit index extends what the ring holds and overwrites none of it |

## Left out

- The LRU list of the buffer cache, the inode and directory layers of `fs.rs`, the scheduler, device drivers, trap and
  assembly code, system calls, pipes, exec: not part of this model.
- `Uvm::copy`, `init`, `clear`, `free`, `copyinstr`, `freewalk` and the kernel map: easy given the rest, or
  resting on raw reinterpretation of memory.
- Weak-memory effects of relaxed, acquire and release orderings.
- `OnceLock::take` and `call_once`, which refuses a poisoned cell.
- Liveness: that spinning or sleeping threads get on is shown only as the absence of lost wake-ups and, for the log, as
  an idle log admitting an operation.
- mkfs `main`: argument handling and the final rounding of the root directory's size.
- Console.Cons.Read: no second reader while one sleeps; a killed reader is one that ends waiting.
- MkFs.FsImg.Iappend: files whose inode lies past the inode blocks are not followed.
- BuddyAllocator.BuddyAllocator.Init: an arena without a whole page, or at address 0, is left to the caller of
  the unsafe function.
