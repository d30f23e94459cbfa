# rxv64 in Dafny

A model of the state-bearing cores of rxv64, an xv6-style kernel in Rust with a small C user land, and
proofs of what they are for. `dafny verify dfyconfig.toml` checks everything.

- **Redo log** (`LogFormat`, `FsLog`, `LogProtocol`, `LogTheorems`, `LogBudget`, `OpBudget`). `LogFormat` says what a
  commit and a recovery write and what any disk image recovers to. `FsLog` is `struct Log` with its array
  and loops, proved to issue exactly those writes. `LogProtocol` is the whole system as a state machine:
  operations begin, log, end; single disk writes; buffers are filled and recycled; power fails anywhere.
  `LogTheorems` holds the results over all runs, `LogBudget` the accounting of log space, `OpBudget` its link to
  the writes of files.
- **Page tables** (`PhysMem`, `PageTree`, `PageFree`, `PageTables`, `PageDup`, `PageAlloc`, `PageGrow`). Physical memory
  is a sequence of 512-word pages with the intrusive free list in it; the tables of an address space are a
  tree in that memory; `Lookup` is the map from page numbers to entries they stand for (4-level paging,
  section 4.5 of the Intel SDM, volume 3A).
- **File layer** (`FsLayout`, `FsImage`, `FsFile`, `FsOps`, `FsWrite`, `FsSpace`, `FsStored`, `Fs`,
  `FsExamples`, `FsChunks`, `Mkfs`, `MkfsBuild`). A consistent image has a bit set iff the block is metadata or
  owned by exactly one slot of one inode; files are byte sequences over it. `Fs.Volume` is the kernel code, with the inodes in memory and
  their stored copies (`FsStored`); `MkfsBuild.Maker` is `mkfs`.
- **Allocator** (`FreeBlocks`, `Malloc`, `Allocator`): headers in memory linked in a circle.
- **Buffer cache and disk queue** (`Bio`, `DiskQueue`): links as index arrays.
- **Processes** (`Proc`, `ProcRuns`, `ProcTable`), **sleep lock** (`SleepLock`), **pipe** (`Pipe`,
  `PipeRuns`): transition systems over critical sections, with the code of `ProcTable.Procs` and
  `PipeRuns.Shared` proved to perform the steps; the sleep lock is a transition system over its single lock
  operations, without code beside it.
- **Languages** (`Grep`, `ShellGrammar`, `ShellDerive`, `ShellLexer`, `ShellPrint`, `ShellRender`,
  `ShellParser`, `ShellTerminate`).

Code that updates state in place is a class or a method on an array, proved equal to a function on values
or to a predicate over old and new state; theorems are about those.

## Where the code is narrower than it looks

- `Log::read` refuses lists of size - 1 or LOGSIZE blocks that `is_full` lets a transaction reach
  (kernel/src/fslog.rs:96, 107). `BootPanicsIff` and `BootAcceptsIff` give the exact condition,
  `BootCanPanic` a run for every log size.
- `begin` admits operations up to LOGSIZE blocks, and `is_full` is asked before absorption
  (kernel/src/fslog.rs:95-97, 263-276). With every operation within its budget a write panics exactly when the
  list has LOGSIZE blocks or one for every slot of the region (`WritePanicsIff`). In a region of LOGSIZE blocks or
  fewer, as `mkfs` makes, that can be a block new to its operation (`NewBlockCanPanic`). In a larger one it is
  always a block its operation has logged before, with all budgets spent (`LargeLogPanicsIff`), and that does
  happen, whatever the size (`RepeatCanPanic`).
- `inner_malloc` goes on with the `freep` it began with after the heap has grown
  (ulib/src/malloc.rs:54, 79-82). A new chunk that joins a free block the search has passed is never seen.
  `CanServe` is the exact condition, `StaleTopExample` a run of calls after which it fails.
- `alloc_user` does not give back the page whose `map_to` failed (kernel/src/vm.rs:381-384). It loses that
  page exactly when the number of free pages lies strictly between the needs of two successive page numbers,
  tables included (`Decided` over `Needs` in `AllocUser`); `LosesAPage` is such a call.
- When `alloc_user` fails it frees the whole range it was asked for (kernel/src/vm.rs:377-384), and `adjsize`
  asks for any range below the end of user space. A growth into the stack always fails (`NeverPastStack`) and
  takes the stack pages below the new size with it (`Grow`, `AdjSize`); `LosesStack` is such a call. A failing
  call leaves the process its pages exactly with RoundUp(newSize) <= USERSTACK / PAGE_SIZE or a size beyond user
  space.
- `safe_sbrk` takes the number of bytes as signed (ulib/src/malloc.rs:92, 106). A request of nearly 2^64 bytes
  lowers the break under live blocks; `Ended` gives the exact condition, `LowersTheBreak` two calls.
- `Like::read` runs outside any operation (kernel/src/fs.rs:958-964), and `bmap` fills holes. Reading a hole
  with a block free panics when no operation is outstanding (`FsChunks.Read`); on an image with 126 files so
  does reading the root directory (`RootReadPanics`).
- `mkfs` adds a whole block to the size of a root directory that already fills its blocks
  (bin/mkfs.c:161); `RoundedRoot` says exactly when that leaves a hole, and `RootHole` has 126 files.
- `trunc1` clears the words of the indirect block in its buffer only (kernel/src/fs.rs:560-566). `Trunc` states
  that this block changes unlogged if and only if it held a pointer, `ChangeNotLogged` shows it, and
  `LogProtocol` has the unlogged change as a step of its own.
- `writei` stores the inode only when the size grows (kernel/src/fs.rs:644-647). A pointer set for a hole below
  the size, or before blocks ran out, stays in memory; `CopiedIff` gives the exact condition on the state
  before, with `Fitting` for whether the blocks suffice, `StoredOwnedIff` what the stored inodes then lack,
  `BlockWithoutOwner` a marked block no stored inode points to.
- `is_full` of a pipe adds with overflow checks in a development build (kernel/src/pipe.rs:89): `IsFull` panics
  exactly when the read counter is within a page of wrapping.
- All buffers start with the key (0, 0) (kernel/src/bio.rs:79-80); every other key is unique (`KeyIsOne`).

## Model

| member | source | states |
|---|---|---|
| LogFormat.HeaderRoundTrip | kernel/src/fslog.rs:118-130 | decoding an encoded header block gives back the block list |
| LogFormat.InsertAllDistinct | kernel/src/fslog.rs:76-81 | inserting pairwise different blocks one by one appends them in order: absorption only drops repeats |
| LogFormat.LoadHeaderIsHeader | kernel/src/fslog.rs:99-116 | what boot loads is exactly the list the on-disk header names |
| LogFormat.LoadHeaderWords | kernel/src/fslog.rs:107-114 | the words behind the length of the header, in order |
| LogFormat.BootAcceptsIff | kernel/src/fslog.rs:99-116 | boot loads a committed list if and only if it is shorter than both size - 1 and LOGSIZE, and then loads exactly that list |
| LogFormat.RecoveryPrefix | kernel/src/fslog.rs:148-162 | the disk after any prefix of the writes of recovery, block by block |
| LogFormat.RecoveryCrashSafe | kernel/src/fslog.rs:251-261 | a crash after any number of the writes of recovery leaves a disk that recovers to the same home contents |
| LogFormat.RepeatedCrashes | kernel/src/fslog.rs:251-261 | so do any number of crashed boots in a row |
| LogFormat.RecoveryCompletes | kernel/src/fslog.rs:251-261 | a completed recovery leaves the recovered contents in the home blocks and an empty header |
| LogFormat.RecoveryIdempotent | kernel/src/fslog.rs:251-261 | recovering again changes no block of the disk |
| LogFormat.CommitPrefix | kernel/src/fslog.rs:232-241 | the disk after any prefix of the writes of a commit, block by block |
| LogFormat.CommitCrashAtomic | kernel/src/fslog.rs:232-241 | after any prefix of the writes of a commit the disk recovers to the old contents everywhere or to the new contents everywhere; the header write is the turning point |
| FsLog.Device.Read | kernel/src/bio.rs:294-298 | reading gives what is cached or on disk and changes neither what is read elsewhere nor the disk |
| FsLog.Device.Write | kernel/src/bio.rs:166-171 | one block write reaches the disk and the buffer is clean afterwards |
| FsLog.Log.Insert | kernel/src/fslog.rs:76-81 | the list with the block absorbed or appended; entries stay distinct |
| FsLog.Log.IsFull | kernel/src/fslog.rs:95-97 | not full exactly when the next block has an array cell and a slot inside the log region |
| FsLog.Log.ReadHeader | kernel/src/fslog.rs:99-116 | loads the list of the on-disk header if and only if its length is below both LOGSIZE and size - 1; nothing on disk changes |
| FsLog.Log.WriteHeader | kernel/src/fslog.rs:118-130 | exactly one disk write, to the first block of the log: the length and then the block numbers, word by word |
| FsLog.Log.Sync | kernel/src/fslog.rs:132-146 | one write per logged block, in order: the contents the cache holds go to block start + 1 + i |
| FsLog.Log.Install | kernel/src/fslog.rs:148-162 | one write per logged block, in order: block start + 1 + i goes to the home block |
| FsLog.Log.Publish | kernel/src/fslog.rs:232-238 | the first half of a commit is the first len + 1 writes of the commit list |
| FsLog.Log.Replay | kernel/src/fslog.rs:251-258 | the writes are exactly those of a recovery of the loaded list |
| FsLog.CommitSplits | kernel/src/fslog.rs:232-241 | the second half of a commit is the recovery from the header the first half published |
| FsLog.Log.Commit | kernel/src/fslog.rs:232-241 | the disk writes are exactly the commit list of the cached contents, in order; the in-memory list is empty afterwards |
| FsLog.Log.Recover | kernel/src/fslog.rs:251-261 | refuses exactly where boot refuses, with nothing written; otherwise the writes are exactly those of recovery |
| LogProtocol.BeginInv | kernel/src/fslog.rs:190-207 | the system invariant is kept by `begin`, whether it sleeps or enters |
| LogProtocol.EndInv | kernel/src/fslog.rs:209-230 | the system invariant is kept by the critical section of `end` |
| LogProtocol.LogWriteInv | kernel/src/fslog.rs:263-276 | the system invariant is kept by a logged buffer change, or its panic |
| LogProtocol.CommitStepInv | kernel/src/fslog.rs:232-241 | the system invariant is kept by any single disk write of a commit |
| LogProtocol.ReadLogInv | kernel/src/fslog.rs:99-116 | the system invariant is kept by reading the header at boot |
| LogProtocol.ReplayStepInv | kernel/src/fslog.rs:251-261 | the system invariant is kept by any single disk write of recovery |
| LogProtocol.FinishCommitInv | kernel/src/fslog.rs:224-229 | the system invariant is kept by the end of a commit |
| LogProtocol.CrashInv | kernel/src/fslog.rs:251-261 | the system invariant is kept by a power failure in any state |
| LogProtocol.ScribbleInv | kernel/src/fs.rs:560-566 | the system invariant is kept by a change of a cached block that is not given to the log |
| LogProtocol.FetchInv | kernel/src/bio.rs:139-143 | the system invariant is kept by reading a block into the cache |
| LogProtocol.RecycleInv | kernel/src/bio.rs:229-260 | the system invariant is kept by reusing a clean buffer |
| LogTheorems.StepInv | kernel/src/fslog.rs:190-276 | the system invariant is kept by every step |
| LogTheorems.RunInv | kernel/src/fslog.rs:190-276 | the system invariant holds in every state of every run, with any interleaving and any number of crashes |
| LogTheorems.CrashAtomicity | kernel/src/fslog.rs:190-276 | at every moment of every run the disk recovers to the initial contents with exactly the committed changes applied in order; every operation is committed entirely or not at all, and only after it has ended |
| LogTheorems.QuiescentIsDurable | kernel/src/fslog.rs:209-241 | with no active operation and no commit running, the log is empty and all changes are in the home blocks |
| LogTheorems.CommitIsExclusive | kernel/src/fslog.rs:190-241 | while a commit runs no operation is active, none can end or log a block, and the block list changes only by the final clear |
| LogTheorems.NoEndDuringCommit | kernel/src/fslog.rs:209-214 | the "op end during commit" panic is unreachable |
| LogTheorems.NoStrandedWaiter | kernel/src/fslog.rs:190-230 | whoever sleeps in `begin` has an active operation or a committer to wake them, and their last step leaves nobody asleep |
| LogTheorems.LoggedBlockIsPinned | kernel/src/bio.rs:229-260 | from the logged write to its install a block stays cached and dirty with the contents of the transaction and is not recycled |
| LogTheorems.OneUnpinned | kernel/src/param.rs:15-17 | in every run at most LOGSIZE buffers are pinned, one fewer than there are |
| LogTheorems.WriteAhead | kernel/src/fslog.rs:132-162 | a home block changes on disk only while a published header names it, and what it gets is its committed contents |
| LogTheorems.HomeWriteIsStable | kernel/src/fslog.rs:148-162 | what is copied home is the committed contents of that block |
| LogTheorems.BootPanicsIff | kernel/src/fslog.rs:99-116 | boot panics exactly on a published list of size - 1 or LOGSIZE blocks or more, and otherwise goes on to replay it |
| LogTheorems.CommitterFollowsWriteList | kernel/src/fslog.rs:232-241 | in every reachable state the next write of the committer is the next entry of the commit list of `FsLog.Log.Commit` |
| LogBudget.BudgetRun | kernel/src/fslog.rs:190-207 | the space invariant holds in every run of operations that log at most MAXOPBLOCKS blocks each |
| LogBudget.LogSpaceBound | kernel/src/fslog.rs:190-207 | in every such run the log length plus the unused budget of all active operations is at most LOGSIZE |
| LogBudget.WritePanicsIff | kernel/src/fslog.rs:263-276 | in every run of operations within their budgets, a logged write panics if and only if the list has LOGSIZE blocks or one for every slot of the region |
| LogBudget.LargeLogPanicsIff | kernel/src/fslog.rs:263-276 | with a region of more than LOGSIZE blocks it panics if and only if the list has LOGSIZE blocks; then every active operation has spent its budget and the block is one its operation has logged before |
| LogBudget.NewBlockFits | kernel/src/fslog.rs:263-276 | the consequence for a block new to its operation: with a log region of more than LOGSIZE blocks it never panics |
| LogBudget.NewBlockCanPanic | kernel/src/fslog.rs:95-97 | with a log region of LOGSIZE blocks or fewer, a run of operations within their budgets reaches the "transaction too big" panic on a new block |
| LogBudget.RepeatCanPanic | kernel/src/fslog.rs:263-276 | for every larger region a run within the budgets reaches the panic on a block that is already in the log |
| LogBudget.BootCanPanic | kernel/src/fslog.rs:99-116 | for every log size some run commits a list that boot refuses after a crash |
| OpBudget.PromiseKept | kernel/src/fs.rs:966-980 | a run keeps the promise of the budget if every operation logs what some chunk of a write to a file without holes or some truncation logs, which `FsChunks.WriteChunk` and `FsChunks.Truncate` ensure of `v.logs` |
| OpBudget.OpFits | kernel/src/fs.rs:543-578 | what such an operation logs is at most MAXOPBLOCKS different blocks, with a bit map of fewer blocks |
| OpBudget.NewMapIsSmall | bin/mkfs.c:93-103 | the bit map `mkfs` makes is that small |
| OpBudget.ChunksFit | kernel/src/fslog.rs:190-207 | so at every step of such a run the log plus all unused budget fits in LOGSIZE |
| PhysMem.EntryRoundTrip | kernel/src/vm.rs:37-79 | the frame of a new enabled entry is the physical address without offset and bits above 46, its flags are those given plus PRESENT |
| PhysMem.FreeListUnique | kernel/src/kalloc.rs:15-33 | memory determines the free list: the links from the head meet exactly one list of pages |
| PhysMem.Memory.Get | kernel/src/kalloc.rs:26-33 | takes the first free page, cleared; fails exactly when none is free |
| PhysMem.Memory.Put | kernel/src/kalloc.rs:15-24 | the page becomes the head of the free list: its first word is the old head, every other byte 0xAA |
| PhysMem.FreeListPush | kernel/src/kalloc.rs:15-24 | putting a page that is not free keeps the free list well linked |
| PhysMem.Memory.Free | kernel/src/kalloc.rs:47-49 | a page that was not free is scribbled over and the first free page afterwards |
| PhysMem.Memory.FreePages | kernel/src/kalloc.rs:40-45 | every page of the range is free exactly once, the last in front |
| PageTree.WalkIsLookup | kernel/src/vm.rs:143-150 | the walk over memory computes the abstract map from page numbers to entries |
| PageTree.WayIsOpen | kernel/src/vm.rs:152-160 | every table entry on the way to a mapped page is present, writable and open to user code |
| PageTree.IndexBits | kernel/src/vm.rs:90-112 | the index at each level is the nine bits of the address that the level decodes |
| PageTree.TablesAdd | kernel/src/vm.rs:152-164 | a fresh zeroed page linked as a missing table keeps the tables a tree and changes no mapping |
| PageTree.TablesSetLeaf | kernel/src/vm.rs:295-310 | writing a leaf entry changes the mapping of exactly one page number and keeps the tables a tree |
| PageTree.TablesRemove | kernel/src/vm.rs:172-194 | unlinking an empty table keeps the tables a tree and changes no mapping |
| PageTables.PageTable.NextMut | kernel/src/vm.rs:152-164 | the table below an entry, made from the first free page when missing; no mapping changes; fails exactly when the table is missing and no page is free |
| PageTables.PageTable.Descend | kernel/src/vm.rs:295-303 | the level-1 table of a page number, with exactly the missing tables on the way made; no mapping changes; fails exactly when more tables are missing than pages are free |
| PageTables.PageTable.MapTo | kernel/src/vm.rs:295-310 | succeeds exactly when as many pages are free as tables are missing on the way, and takes so many; then exactly one page number changes, to the new entry; on failure no mapping changes and no page is free; the tables stay a tree |
| PageTables.MappedTranslates | kernel/src/vm.rs:276-285 | after a successful `map_to`, `translate` gives the masked physical page plus the offset |
| PageTables.SameLookupTranslates | kernel/src/vm.rs:276-293 | page numbers whose entry did not change translate as before |
| PageTables.RoundUp | kernel/src/x86_64.rs:75-77 | the least number of pages that covers a size |
| PageTables.PageTable.IsEmpty | kernel/src/vm.rs:166-168 | true exactly for a table of zero entries |
| PageTables.PageTable.FreeLevel1 | kernel/src/vm.rs:241-257 | the level-1 loop computes `FreeLeaves` |
| PageTables.PageTable.FreeEntry | kernel/src/vm.rs:172-194 | one turn of the loop of a higher level computes `FreeChild`, and the range assertion of the level below holds |
| PageTables.PageTable.FreeLevel | kernel/src/vm.rs:171-258 | the loops of all levels compute `FreeTable`, and every range assertion of the lower levels holds |
| PageFree.FreeLeafFrees | kernel/src/vm.rs:241-257 | clearing one leaf frees exactly its page, once |
| PageFree.FreedTrans | kernel/src/vm.rs:172-194 | freeing two adjacent ranges in turn is freeing their union, table by table and page by page |
| PageFree.DropChild | kernel/src/vm.rs:185-191 | an emptied table is unlinked and freed with the partition kept |
| PageFree.FreeTableFrees | kernel/src/vm.rs:171-258 | freeing a range below any table removes exactly its mappings, frees each of its pages and each emptied table exactly once, and keeps free list, tables and mapped pages a partition |
| PageTables.PageTable.FreeUserPages | kernel/src/vm.rs:397-419 | exactly the mappings between the rounded bounds go; their pages and the emptied tables join the free list once each; all else stays |
| PageDup.DupKernTables | kernel/src/vm.rs:325-332 | a fresh root with the upper half copied maps exactly the page numbers of the kernel, as before |
| PageDup.DupKern | kernel/src/vm.rs:325-332 | a space of its own root over the shared kernel half with nothing mapped below; on failure nothing changes |
| PageDup.CopyPage | kernel/src/vm.rs:340-353 | one page is copied, flags and contents, to a page free before, or the page is given back |
| PageDup.CopyRegion | kernel/src/vm.rs:335-356 | all pages of a region are copied so |
| PageDup.Dup | kernel/src/vm.rs:334-360 | the copy maps the same user page numbers with equal flags to fresh pages of equal contents and shares exactly the kernel half; on failure the same pages are free as before; the original is untouched; every size whose pages are present, which the code asserts |
| PageDup.BelowStack | kernel/src/vm.rs:356-358 | a space that has the stack and all pages below a size ends below the stack, so the two regions never overlap: memory has no page for every user page number and the tables besides |
| PageDup.SpacesApart | kernel/src/vm.rs:334-360 | original and copy share no user page and no table outside the kernel half |
| PageDup.Free | kernel/src/vm.rs:567-577 | exactly the pages of the space join the free list, so no table of the kernel half; no other page changes |
| PageDup.NoUserTables | kernel/src/vm.rs:567-571 | with no user page mapped and no empty table left only the root and the kernel half remain |
| PageDup.SpaceReleased | kernel/src/vm.rs:567-571 | after freeing all user pages and the root, the space is gone entirely |
| PageDup.ReleaseUndoes | kernel/src/vm.rs:573-577 | releasing a copy restores the set of free pages it was made from |
| PageDup.KernelNotOwn | kernel/src/vm.rs:567-571 | no table of the kernel half is among the pages a space releases |
| PageDup.OtherSpaceKept | kernel/src/vm.rs:334-360 | making and releasing other spaces leaves a space as it is |
| PageAlloc.AddPage | kernel/src/vm.rs:375-385 | one cleared page is mapped at the next page number; it fails for lack of a page exactly when none is free, and loses the page taken exactly when some page is free but fewer than the missing tables and the page need; a page mapped there before is nobody's afterwards |
| PageAlloc.NeedsCount | kernel/src/vm.rs:375-385 | the running need of the loop is the number of page numbers plus the number of tables missing for them, each table counted once |
| PageAlloc.NeedsRise | kernel/src/vm.rs:375-385 | the running need grows with every page number, so a count of free pages falls on one need or strictly between two |
| PageAlloc.AddPages | kernel/src/vm.rs:375-385 | the loop of `alloc_user`: where it stops and how is decided by the free pages and the running need at the start |
| PageAlloc.NewEntryGrants | kernel/src/vm.rs:381 | the entry of a new page is present, open to user code, and has every other bit exactly as in the flags |
| PageAlloc.ClearedGranted | kernel/src/vm.rs:381 | so has the entry of every page number of the range |
| PageAlloc.FreedConserves | kernel/src/vm.rs:389-395 | freeing a range conserves the pages of the space and the free list together |
| PageAlloc.GiveUp | kernel/src/vm.rs:377-378 | giving up unmaps the whole range and accounts for every page but those held |
| PageAlloc.AllocUser | kernel/src/vm.rs:362-387 | for any range, mapped page numbers in it or not. Decided before the call: success if and only if the free pages cover the need; a clean failure if and only if they equal the need of some shorter range; and a page lost if and only if they lie strictly between two such needs. On success exactly the page numbers between the rounded sizes are mapped, each to a cleared page of its own; on failure none of them is, so the mappings are as before if and only if the range had none; all other page numbers, the kernel half included, read as before; the pages lost are exactly the one whose mapping failed and those mapped over; on success every entry of the range is present, open to user code, writable and executable exactly as the flags say |
| PageAlloc.LosesAPage | kernel/src/vm.rs:381-384 | a run that loses a page: an empty space, one free page, one page number asked for |
| PageAlloc.SameIff | kernel/src/vm.rs:377-384 | after giving up, the mappings are as before if and only if the range had none |
| PageGrow.FreeBelowStack | kernel/src/param.rs:4-5 | a process with its stack and all pages below a size never has as many free pages as growing to the stack takes |
| PageGrow.NeverPastStack | kernel/src/vm.rs:375-386 | so a growth that reaches the stack always fails, whatever is free |
| PageGrow.StopsBelow | kernel/src/vm.rs:376 | and it fails before the first page of the stack, so it maps over none |
| PageGrow.GrownPages | kernel/src/proc.rs:321 | the pages `adjsize` asks for: zeroed, present, writable, open to user code, not marked NX |
| PageGrow.Grow | kernel/src/proc.rs:317-323 | the growing half of `adjsize`: succeeds if and only if the new size ends below the stack and enough pages are free; a growth that fails leaves the process its pages if and only if it would have ended below the stack or beyond user space, and otherwise the stack pages below the new size are gone; every page added is zeroed, present, writable, open to user code and not marked NX, and no other page number changes |
| PageGrow.Shrink | kernel/src/vm.rs:389-395 | the pages between the sizes are given back, nothing else changes and no page is lost |
| PageGrow.AdjSize | kernel/src/proc.rs:309-330 | `adjsize` for every signed amount: when it succeeds, what it leaves mapped when it fails, and which page is lost; every page added is zeroed, present, writable, open to user code and not marked NX, and no other page number changes |
| PageGrow.LosesStack | kernel/src/vm.rs:377-378 | a run in which a process asks for memory up to the end of user space: the call fails and its stack is gone |
| FsLayout.SetBitBits | kernel/src/fs.rs:148-163 | setting a clear bit of the bit map changes that bit only |
| FsLayout.ClearBitBits | kernel/src/fs.rs:172-181 | clearing a set bit changes that bit only |
| FsLayout.SetWordWords | kernel/src/fs.rs:514-541 | storing a word of an indirect block changes that word only, and reads back |
| FsLayout.WordBytes | kernel/src/fs.rs:514-541 | a word of an indirect block is its eight bytes, low byte first |
| FsLayout.BitsOfNumber | kernel/src/fs.rs:148-181 | a byte of the bit map is the sum of the masks of its set bits |
| FsImage.OwnersDiffer | kernel/src/fs.rs:514-541 | different slots never point to the same block |
| FsImage.SlotAssigned | kernel/src/fs.rs:514-541 | pointing an empty slot at an unowned block keeps every block owned by exactly one slot |
| FsImage.SlotCleared | kernel/src/fs.rs:543-572 | clearing a slot takes its block, and only it, out of ownership |
| FsImage.InodePlace | kernel/src/fs.rs:46-48 | every inode number has a block and a place in it of its own |
| FsFile.KeepsContent | kernel/src/fs.rs:514-541 | operations that keep the blocks in use keep the contents of every file without holes |
| FsFile.ContentAt | kernel/src/fs.rs:590-617 | byte k of a file is byte k mod BSIZE of the block its slot k / BSIZE points to, direct or indirect |
| FsOps.AllocSlotKeeps | kernel/src/fs.rs:148-169 | allocating for a slot keeps block ownership and every block in use |
| FsOps.BmapKeeps | kernel/src/fs.rs:514-541 | `bmap` keeps block ownership and all contents, gives the old block if there is one, fails only beyond the largest file or without free blocks, logs one bit map block per block allocated, and every block it changes is logged |
| FsOps.FreeSlotKeeps | kernel/src/fs.rs:172-182 | the block of a slot has its bit set, so the assertion in `bfree` holds; freeing it keeps block ownership and changes no other slot |
| FsOps.OthersContent | kernel/src/fs.rs:543-572 | truncating a file keeps the contents of the others |
| Fs.Volume.constructor | kernel/src/fs.rs:255-264 | a consistent image, such as `mkfs` builds, is a valid volume |
| Fs.Volume.Balloc | kernel/src/fs.rs:148-169 | the first free block, zeroed, with its bit and no other set in the bit map; fails exactly when none is free |
| Fs.Volume.Bfree | kernel/src/fs.rs:172-182 | the bit of the block is cleared and the bit map block logged |
| Fs.Volume.Bmap | kernel/src/fs.rs:514-541 | the code computes `FsOps.Bmap`, with its log writes |
| Fs.Volume.Update | kernel/src/fs.rs:411-419 | the stored inode becomes the one in memory, no other stored inode changes, and its block is logged |
| FsWrite.RoundKeeps | kernel/src/fs.rs:632-643 | one round of `writei` sets its bytes and no others; every block it changes is logged, and nothing is logged but the block, the indirect block and the marks |
| FsWrite.WrittenContent | kernel/src/fs.rs:619-649 | once the size covers what was written, the contents are the old ones overwritten there |
| FsWrite.WriteFinished | kernel/src/fs.rs:619-649 | a completed write keeps block ownership and all other files |
| FsSpace.FreeNone | kernel/src/fs.rs:148-169 | the number of unmarked blocks is zero exactly when `balloc` finds none |
| FsSpace.BmapTakes | kernel/src/fs.rs:514-541 | `bmap` succeeds if and only if as many blocks are free as it takes, its own and the indirect block if missing; then so many fewer are free and the other blocks of the file are as before |
| FsSpace.SpentMore | kernel/src/fs.rs:632-643 | each round either takes what the next block wants or shows the count at which the free blocks end |
| FsSpace.PaidIsFitted | kernel/src/fs.rs:619-649 | what the loop has written at its end is what the free blocks before it allow |
| FsSpace.BmapLogs | kernel/src/fs.rs:514-541 | `bmap` gives a block to the log if and only if it meets a hole and a block is free, and changes nothing otherwise |
| FsStored.BmapEffect | kernel/src/fs.rs:514-541 | what `bmap` does to the pointers in the inode: it sets one exactly if the one it needs is missing and a block is free |
| FsStored.RoundEffect | kernel/src/fs.rs:632-643 | the same for a round of `writei`, whose byte writes touch no pointer |
| FsStored.WroteMore | kernel/src/fs.rs:632-643 | the record of a write in progress, with its bytes, blocks logged and pointers set, is kept by every round |
| FsStored.CopiedIff | kernel/src/fs.rs:644-647 | the stored inodes equal those in memory after a write if and only if its blocks can be had and it ends beyond the file, or it sets no pointer of the inode: a condition on the state before |
| FsStored.StoredOwnedIff | kernel/src/fs.rs:619-649 | the stored inodes satisfy block ownership if and only if they have the pointers of the inodes in memory |
| FsStored.Unowned | kernel/src/fs.rs:619-649 | a block whose pointer was not stored has its bit set and no stored inode points to it |
| Fs.Volume.WriteBytes | kernel/src/fs.rs:632-643 | the loop writes all bytes or, when blocks run out, a prefix; how far it gets is `Fitted`, computed from the state before; every block changed was logged in this call |
| Fs.WriteEnds | kernel/src/fs.rs:619-649 | the file after a write: its byte k is the byte k - off of the source in the range and the old one elsewhere; and when the stored inode is renewed |
| Fs.Volume.Writei | kernel/src/fs.rs:619-649 | each error exactly under its guard, running out of blocks too: it does if and only if fewer blocks are free than the range wants, its missing blocks and the indirect block counted before the call, and the bytes written are determined by the same count; on success contents c become c[..off] + src + c[off+n..]; without free blocks a prefix is written and the size stays; other files and block ownership are kept; every block changed was given to the log; with stored inodes up to date before, they are so after if and only if the write fits and ends beyond the file, or sets no pointer of the inode |
| Fs.Volume.FreeSlots | kernel/src/fs.rs:550-570 | the loops over the slots free each block they hold |
| Fs.Volume.Trunc | kernel/src/fs.rs:543-578 | the file has no blocks and no bytes and no other file changes; the stored inode is that in memory; a block was changed and not logged if and only if it is the indirect block and held a pointer, and then it is free |
| Fs.IndirectChanged | kernel/src/fs.rs:560-566 | the indirect block changes exactly when it held a pointer |
| FsExamples.BlockWithoutOwner | kernel/src/fs.rs:619-649 | a write that runs out of blocks after setting a pointer: it ends in an error, block 4 is marked in the bit map and no stored inode points to it |
| FsExamples.ChangeNotLogged | kernel/src/fs.rs:560-566 | a truncation of a file with one indirect pointer: block 4 changes and is not among the blocks logged |
| FsExamples.RootReadPanics | kernel/src/fs.rs:958-964 | `mkfs` with 126 files and then a read of the root directory with no operation outstanding panics |
| Fs.Volume.Readi | kernel/src/fs.rs:590-617 | the requested bytes clipped to the size; a block is logged if and only if the range has a hole and a block is free, and otherwise nothing is allocated or changed |
| FsChunks.ChunkFits | kernel/src/fs.rs:966-980 | without holes a chunk logs at most MAXOPBLOCKS distinct blocks: data, bit map, indirect and inode |
| FsChunks.WriteChunk | kernel/src/fs.rs:966-980 | one chunk written as one operation within that bound; beyond the end of the file an error with nothing changed or logged |
| FsChunks.FileWrittenTwice | kernel/src/fs.rs:966-980 | a chunk behind a complete one is one longer write |
| FsChunks.Write | kernel/src/fs.rs:966-980 | all of the buffer is written at the offset, which moves behind it, or a prefix; an offset beyond the end is an error exactly when there is something to write, and changes nothing; no operation exceeds its share of the log |
| FsChunks.Read | kernel/src/fs.rs:958-964 | reading is no operation: it panics if and only if none is outstanding, the range read has a hole and a block is free; otherwise the offset moves behind what was read |
| FsChunks.TruncFits | kernel/src/fs.rs:543-578 | a truncation logs at most as many different blocks as the bit map has, and one inode block |
| FsChunks.Truncate | kernel/src/fs.rs:543-578 | `trunc` as one operation within that bound |
| Mkfs.NewSuperValid | bin/mkfs.c:93-103 | the super block lays out boot, super, log, inode and bit map blocks without overlap |
| Mkfs.NewSuperRegions | bin/mkfs.c:93-103 | the regions follow each other from block 2 on and fill the image; every inode lies in the inode blocks and every bit in the bit map |
| Mkfs.NextAssigned | bin/mkfs.c:280-299 | taking the next block for an empty slot keeps every block below `freeblock` owned by exactly one slot |
| Mkfs.FindKeeps | bin/mkfs.c:280-299 | finding or taking the block for a file block keeps ownership and all contents, and takes exactly the data block and the indirect block that are missing |
| Mkfs.RoundAppends | bin/mkfs.c:278-306 | one round of `iappend` adds its bytes, changes no other file, and takes exactly the blocks the longer file needs more |
| Mkfs.AppendFinished | bin/mkfs.c:307-309 | once the size is set the file is the old contents followed by the bytes |
| MkfsBuild.Maker.Ialloc | bin/mkfs.c:226-239 | a fresh empty inode of the type asked for with one link; no other file changes |
| MkfsBuild.Maker.Iappend | bin/mkfs.c:259-310 | the bytes are added at the end of the file, no other file changes, and the blocks taken are those the longer file needs more; it stops only if the file would exceed the largest size or those blocks the image; its type and link count stay |
| MkfsBuild.Maker.AddFile | bin/mkfs.c:130-156 | the directory entry is appended to the root and the file holds exactly the host bytes; the blocks in use are those needed so far |
| MkfsBuild.Maker.AddFiles | bin/mkfs.c:130-156 | the loop over the command line |
| MkfsBuild.DirentIsEntry | bin/mkfs.c:116-120 | a directory entry is the inode number, eight bytes low first, and the name, cut or filled with zeros |
| MkfsBuild.RootDirEntries | bin/mkfs.c:116-149 | the k-th entry of the root directory, for every k |
| MkfsBuild.BitmapBlock | bin/mkfs.c:241-255 | exactly the bits below `used` are set |
| MkfsBuild.BitmapWritten | bin/mkfs.c:241-255 | with the bit map written the image satisfies block ownership |
| MkfsBuild.RoundedRoot | bin/mkfs.c:158-163 | rounding the size of the root up leaves a hole exactly when it was a multiple of the block size |
| MkfsBuild.Maker.Finish | bin/mkfs.c:158-166 | the finished image satisfies block ownership and holds every file, byte for byte with type and link count, and the root directory with its entries |
| MkfsBuild.Build | bin/mkfs.c:70-168 | `mkfs` succeeds exactly when no file exceeds the largest size and the blocks of the metadata, the root directory and the files, counted from the file lengths, are fewer than one bit map block has bits; then the image is consistent, inode k + 2 is a regular file that holds file k, and the root is a directory whose entries are "." and ".." with its own number and the k-th name with number k + 2, each eight bytes low first and a zero-filled name |
| MkfsBuild.InodesFit | bin/mkfs.c:186-198 | the inode of the last of n files is below the number of inodes if and only if n is at most 1022, and in the blocks for inodes if and only if n is at most 1054 |
| MkfsBuild.RootHole | bin/mkfs.c:158-163 | with 126 empty files `mkfs` succeeds and the root directory has a hole at its end |
| Allocator.Heap.constructor | ulib/src/malloc.rs:25-29 | the initial heap is sound, with nothing free and nothing live |
| Malloc.Bytes2Units | ulib/src/malloc.rs:31-34 | the fewest units that hold so many bytes |
| FreeBlocks.AddIsFreeList | ulib/src/malloc.rs:139-155 | putting a block in its place and joining neighbours keeps the list in address order without overlap or adjacent blocks |
| FreeBlocks.AddSum | ulib/src/malloc.rs:139-155 | freeing conserves units |
| FreeBlocks.TakeIsFreeList | ulib/src/malloc.rs:59-77 | taking units from a block keeps the list in order |
| FreeBlocks.TakeSum | ulib/src/malloc.rs:59-77 | taking conserves units |
| Malloc.TestIsPlace | ulib/src/malloc.rs:133-139 | the test of the search loop holds at the place of the block on the circle and nowhere else |
| Malloc.AddLinked | ulib/src/malloc.rs:139-155 | the header writes of `inner_free` link exactly the new list |
| Malloc.TakeLinked | ulib/src/malloc.rs:59-77 | the header writes of `inner_malloc` link exactly the new list and head the block taken |
| Malloc.FreeSound | ulib/src/malloc.rs:122-159 | freeing keeps the heap sound: list, live blocks disjoint, free plus live units equal those from `sbrk` |
| Malloc.TakeSound | ulib/src/malloc.rs:44-88 | so does taking units for the caller |
| Allocator.Heap.FindPlace | ulib/src/malloc.rs:132-157 | the search ends at the place of the block, after exactly as many moves as the place is ahead on the circle, fewer than one lap |
| Allocator.Heap.InnerFree | ulib/src/malloc.rs:122-159 | the block joins the list at its place and merges with the neighbours it touches; the heap stays sound |
| Allocator.Heap.Free | ulib/src/malloc.rs:110-120 | a live block becomes free, the others stay live; the free list has it at its place and the next search begins before it |
| Allocator.Heap.Sbrk | ulib/src/malloc.rs:101-108 | a signed number of bytes: the break moves up to the limit or down to zero, or stays |
| Allocator.Heap.Ask | ulib/src/malloc.rs:90-92 | the amount for so many units: a panic when it overflows a checked word, a lowered break when its sign bit is set and the process is as large, else growth or refusal |
| Allocator.Heap.MoreUnits | ulib/src/malloc.rs:90-99 | the four outcomes of growing, each under its exact condition; on growth the chunk extends the last free block or follows it |
| Allocator.Heap.Search | ulib/src/malloc.rs:55-84 | the search ends, and finds a block exactly under `CanServe`: the first one behind its start that is large enough, or the top one after exactly one growth, which gives its last units; a request no free block can serve panics or lowers the break exactly under the conditions of `Ended`, and then the heap is no longer sound |
| Allocator.Heap.InnerMalloc | ulib/src/malloc.rs:44-88 | for every size: a returned block is new, disjoint and of the requested size, cut from the end of the first free block that is large enough; one is returned if and only if a free block is large enough, or the heap can grow and its top free block is where the search began or does not end at the break; the break is lowered under the heap if and only if no free block is large enough, UNIT times the chunk is 2^63 or more and 2^64 minus it is within the process; the overflow panics are exact too |
| Allocator.StaleTopExample | ulib/src/malloc.rs:54-82 | three calls after which a request fails although `sbrk` could serve it |
| Allocator.LowersTheBreak | ulib/src/malloc.rs:90-108 | two calls after which the break is 255 units lower, below a live block |
| Bio.FrontPermutation | kernel/src/bio.rs:175-203 | moving a buffer to the front keeps all buffers, once each |
| Bio.FrontNext | kernel/src/bio.rs:183-199 | the forward links written are those of the new order |
| Bio.FrontPrev | kernel/src/bio.rs:183-199 | the backward links written are those of the new order |
| Bio.NewKey | kernel/src/bio.rs:229-260 | taking a buffer over for a block nobody has keeps keys unique, the key of buffers never used aside |
| Bio.KeyIsOne | kernel/src/bio.rs:229-260 | at most one buffer per block, for every device and block other than block 0 of device 0 |
| Bio.Cache.constructor | kernel/src/bio.rs:208-227 | the links form one doubly linked list of all buffers |
| Bio.Cache.Relse | kernel/src/bio.rs:175-203 | the last release puts the buffer in front of all others, whose order stays; an earlier one changes the count only |
| Bio.Cache.Find | kernel/src/bio.rs:231-240 | the buffer of the block, or none exactly when there is none |
| Bio.Cache.FindUnused | kernel/src/bio.rs:241-258 | the least recently released buffer that is neither referred to nor dirty |
| Bio.Cache.Bget | kernel/src/bio.rs:229-260 | the one buffer of the block, else an unused clean one taken over; fails exactly when there is neither; never recycles a referenced or dirty buffer; of those it takes the one released longest ago |
| DiskQueue.Enqueued | kernel/src/bio.rs:277-292 | the links written form the queue with the buffer at its end |
| DiskQueue.Dequeued | kernel/src/bio.rs:262-275 | the rest of the queue hangs from the first link |
| DiskQueue.Disk.constructor | kernel/src/sd.rs:571 | the queue starts empty |
| DiskQueue.Disk.Enqueue | kernel/src/bio.rs:277-292 | the queue stays acyclic and duplicate-free with the request last |
| DiskQueue.Disk.Rdwr | kernel/src/sd.rs:573-586 | the request goes last, is no duplicate, and is in flight at once if it is alone |
| DiskQueue.Disk.Interrupt | kernel/src/sd.rs:601-621 | the oldest request completes, its buffer is valid and clean, its sleepers wake, and the next goes in flight |
| Proc.ReparentAt | kernel/src/proc.rs:405-413 | every slot after the reparenting loop: exactly the children of the process go to `init`, which is made runnable if it slept and one of them is a zombie; nothing else changes |
| ProcRuns.ExitAt | kernel/src/proc.rs:393-418 | every slot after `exit`: the process is a zombie with its status, its children go to `init`, and exactly those asleep on its parent, or on `init` when a child was a zombie, are made runnable |
| ProcRuns.StepInv | kernel/src/proc.rs:277-478 | the family invariant is kept by every critical section |
| ProcRuns.RunInv | kernel/src/proc.rs:277-478 | and so holds in every run |
| ProcRuns.NoChildLost | kernel/src/proc.rs:393-478 | in every run nobody sleeps in `wait` over a zombie child, and every parent is in the table and has not exited |
| ProcRuns.RunKeeps | kernel/src/proc.rs:433-464 | what is recorded of an end or a collection never changes |
| ProcRuns.CollectedOnce | kernel/src/proc.rs:433-464 | each zombie is collected at most once, with its pid and status, by the process that forked it or by `init`; until then it stays in the table |
| ProcTable.Procs.Wakeup1 | kernel/src/proc.rs:632-640 | for every channel: a slot asleep on it becomes runnable, and every other slot stays as it is |
| ProcTable.Procs.ExitProc | kernel/src/proc.rs:404-416 | the slot is a zombie with its status, and the loop leaves the table of the `exit` of the transition system, which `ProcRuns.ExitAt` gives slot by slot |
| ProcTable.Procs.Wait1 | kernel/src/proc.rs:433-464 | the first zombie child is collected, with its pid and status, and its slot is unused; without one the caller sleeps if it has children and is not killed, else gives up; no other slot changes |
| ProcTable.Procs.ForkProc | kernel/src/proc.rs:277-307 | the first unused slot becomes a runnable child of the caller with the pid given; if copying fails the slot stays unused; no other slot changes |
| ProcTable.Procs.KillPid | kernel/src/proc.rs:642-654 | the first slot with the pid is marked, and made runnable if asleep; no other slot changes |
| SleepLock.RunInv | kernel/src/sleeplock.rs:31-49 | the lock invariant holds over every interleaving of the single steps of acquire, release, sleep, wakeup and kill |
| SleepLock.MutualExclusion | kernel/src/sleeplock.rs:31-40 | at most one process holds the lock in any run |
| SleepLock.NoSleeperLeft | kernel/src/sleeplock.rs:42-49 | with the inner lock free and `locked` false nobody sleeps on the lock |
| Pipe.Wraps | kernel/src/pipe.rs:79-101 | positions stay right when the 64-bit counters wrap |
| Pipe.WithinPage | kernel/src/pipe.rs:71-90 | equality of wrapped counters is emptiness, a page apart is fullness |
| Pipe.Ring.constructor | kernel/src/pipe.rs:47-53 | an empty pipe, open at both ends |
| Pipe.Ring.IsEmpty | kernel/src/pipe.rs:71-73 | exactly when every byte written has been read |
| Pipe.Ring.IsFull | kernel/src/pipe.rs:87-90 | exactly when a whole page is unread; in a build with overflow checks it panics exactly when the read counter is within a page of wrapping |
| Pipe.Ring.ReadByte | kernel/src/pipe.rs:79-85 | the oldest unread byte |
| Pipe.Ring.WriteByte | kernel/src/pipe.rs:96-101 | the byte joins the end of the stream and overwrites nothing unread |
| Pipe.Ring.ReadSome | kernel/src/pipe.rs:129-133 | as many bytes as wanted and there, in order; the rest of the buffer stays |
| Pipe.Ring.WriteSome | kernel/src/pipe.rs:157-172 | bytes are appended until done or the page is full, or the panic of `is_full` comes before the first |
| PipeRuns.RunInv | kernel/src/pipe.rs:109-172 | the pipe invariant holds over every interleaving of critical sections |
| PipeRuns.ReadIsPrefix | kernel/src/pipe.rs:109-172 | the bytes read are a prefix of those written, at most a page behind |
| PipeRuns.WrittenStep | kernel/src/pipe.rs:157-172 | a write takes as many of its bytes as there is room for, in order, and no other step adds any |
| PipeRuns.ReadIsPassedIn | kernel/src/pipe.rs:121-172 | in every run the bytes written are, in the order of the writes, a prefix of the buffer of each, all of it unless the page is then full; the bytes read are a prefix of those |
| PipeRuns.KilledNeverSleeps | kernel/src/pipe.rs:121-128 | a process once killed is never again asleep as a reader |
| PipeRuns.NeverBothAsleep | kernel/src/pipe.rs:121-172 | no reader and writer sleep at the same time |
| PipeRuns.EmptyReadMeansEnd | kernel/src/pipe.rs:121-137 | a read of at least one byte returns none only after the writer closed and all was drained |
| PipeRuns.SleepersWaitForCause | kernel/src/pipe.rs:121-172 | a reader sleeps only on an empty open pipe, a writer only on a full one with a reader |
| PipeRuns.Shared.constructor | kernel/src/pipe.rs:47-53 | the code starts in the first state of the transition system |
| PipeRuns.Shared.Read | kernel/src/pipe.rs:121-137 | the critical section of `read` performs the step Read: the bytes that come next in what was written, as many as asked for and there; writers are woken; on an empty open pipe the reader sleeps, or returns early if killed |
| PipeRuns.Shared.Write | kernel/src/pipe.rs:157-172 | the critical section of `write` appends exactly the next bytes of the buffer, as many as there is room for, and then returns, sleeps or reports the closed reader; readers are woken; or it panics in `is_full` with nothing changed |
| PipeRuns.Shared.CloseReader | kernel/src/pipe.rs:110-119 | the reading end is closed and every writer asleep is woken |
| PipeRuns.Shared.CloseWriter | kernel/src/pipe.rs:146-155 | the writing end is closed and every reader asleep is woken |
| Grep.BeginsOne | cmd/grep.c:96-97 | the meaning of a single character |
| Grep.BeginsStar | cmd/grep.c:101-109 | a star takes some run of its character, possibly none |
| Grep.ParseWrites | cmd/grep.c:87-99 | every string is how some list of characters, stars and a final anchor is written |
| Grep.ShowParses | cmd/grep.c:87-99 | and reading a written pattern gives it back |
| Grep.WritesOne | cmd/grep.c:87-99 | so a string has one meaning |
| Grep.Anchored | cmd/grep.c:94-95 | a `$` put behind a pattern anchors it; one that was the anchor becomes a character |
| Grep.BasicPatterns | cmd/grep.c:90-109 | a character matches itself, `.` any character, `$` the end of the text, and a star runs of its character |
| Grep.MatchHere | cmd/grep.c:87-99 | true if and only if some pattern that is written so matches at the beginning of the text |
| Grep.MatchStar | cmd/grep.c:101-109 | true if and only if after some run of the character the rest of the pattern matches |
| Grep.Match | cmd/grep.c:75-85 | true if and only if the text contains a match of the pattern written so; with `^` in front, begins with one |
| ShellDerive.ParserIsGrammar | cmd/sh.c:352-472 | the parser accepts a token list with a command if and only if the grammar of lines, stated as a relation between token lists and commands, derives it: redirections around words included |
| ShellDerive.Unambiguous | cmd/sh.c:352-472 | the grammar gives a line at most one command |
| ShellDerive.LineSound | cmd/sh.c:369-384 | what the parser of lines reads is derived by the grammar |
| ShellDerive.LineComplete | cmd/sh.c:369-384 | and every derived line is read, up to its end or a closing parenthesis |
| ShellDerive.ArgsRead | cmd/sh.c:440-472 | the command has the words of the tokens in order, and the redirections in order of the tokens, the last outermost |
| ShellDerive.SimpleInOrder | cmd/sh.c:399-472 | the words and the redirections of a simple command are at increasing places of its tokens, which hold nothing else |
| ShellPrint.RedirsBack | cmd/sh.c:399-422 | printed redirections parse back |
| ShellPrint.ExecBack | cmd/sh.c:440-472 | a printed simple command or block parses back |
| ShellPrint.PipeBack | cmd/sh.c:386-397 | a printed pipeline parses back |
| ShellPrint.LineBack | cmd/sh.c:369-384 | a printed line parses back |
| ShellPrint.PrintedParses | cmd/sh.c:352-384 | every command tree within the limit on arguments can be printed as tokens so that the parser reads exactly it: grouping, precedence and redirection order are kept |
| ShellRender.ParsedGood | cmd/sh.c:352-472 | whatever a line parses to has fewer words per command than the limit, redirections of the three kinds, and words that are runs of word characters of the line |
| ShellRender.RenderedTokens | cmd/sh.c:285-333 | tokens written out, each with a space behind it, are read back as the same tokens with the same characters in their words |
| ShellRender.TokensSpell | cmd/sh.c:285-333 | the tokens of any line, written out, are the characters of the line without the white space |
| ShellRender.LineSame | cmd/sh.c:369-384 | the parser looks at no word: on tokens that differ in the places of their words only it builds the same tree or fails alike |
| ShellRender.LineParses | cmd/sh.c:285-472 | a command over the words of a line, written out as characters, parses to a command of the same tree and the same words |
| ShellRender.Reprinted | cmd/sh.c:352-472 | parsing any line, writing the command out and parsing again gives the same command |
| ShellLexer.TokensAreWords | cmd/sh.c:285-333 | the word tokens are exactly the maximal runs of word characters, in order, none left out |
| ShellParser.LineWords | cmd/sh.c:369-472 | the words of an accepted line are the spans of the command and what is left, once each |
| ShellParser.GetToken | cmd/sh.c:290-333 | the cursor code gives the next token, or none at the end |
| ShellParser.Peek | cmd/sh.c:335-345 | true exactly when the next token begins with one of the symbols; only white space is skipped |
| ShellParser.ParseRedirsAt | cmd/sh.c:399-422 | the loop agrees with the grammar |
| ShellParser.ParseArgsAt | cmd/sh.c:440-472 | the loop over words agrees with the grammar, with its limit on arguments: the words in order, and each redirection with its file, kind and place, the last outermost |
| ShellParser.ParseExecAt | cmd/sh.c:440-472 | terminates and agrees with the grammar on every line |
| ShellParser.ParseBlockAt | cmd/sh.c:424-438 | terminates and agrees with the grammar on every line |
| ShellParser.ParsePipeAt | cmd/sh.c:386-397 | terminates and agrees with the grammar on every line |
| ShellParser.ParseLineAt | cmd/sh.c:369-384 | terminates and agrees with the grammar on every line |
| ShellTerminate.NulTerminate | cmd/sh.c:475-519 | a NUL is written at the end of every recorded word and nothing else changes |
| ShellTerminate.RecordedWords | cmd/sh.c:352-472 | the recorded spans are exactly the words of the line, each once |
| ShellTerminate.WordsDisjoint | cmd/sh.c:352-472 | two recorded spans never overlap or touch |
| ShellTerminate.WordsTerminated | cmd/sh.c:475-519 | no NUL lands inside a word: every recorded word is exactly the C string its pointer leads to |
| ShellTerminate.ParseCommand | cmd/sh.c:352-367 | accepts exactly the lines the grammar derives, and gives the command derived; then every pointer of the command leads to exactly its word; otherwise the buffer is unchanged |

## Left out

- Trap entry, context switch, segments, SMP start-up, interrupt controllers, consoles, PCI and AHCI registers, ELF loading and system call decoding: device and machine effects.
- Spin locks are taken to exclude; their critical sections are the atomic steps.
- `copy_out`, `user_addr_to_kern_page`, `map_phys_range` and the building of the kernel map: easy members next to `map_to`.
- A page table without a root (`PageTable::empty`): all operations are on tables that have one.
- Directories, path names, link counts, inode reference counts and `sysfile.rs`: bookkeeping above the byte-array layer.
- The encoding of inodes in inode blocks and of the super block: the model keeps inodes and the super block as records; `saved` is the copy in the inode blocks.
- Concurrent use of one inode: the file operations run one at a time, as the inode lock makes them; their log and cache are those of the log model, with the blocks seen through the cache.
- Buffer locks and reference counts are in `Bio` and `DiskQueue`, not in the log model, whose buffers are recycled whenever they are clean: whether other processes hold all unpinned buffers during a commit is not stated.
- The pipe slab, the freeing of a pipe closed at both ends, and the status pointer of `wait`.
- Shell execution (`runcmd`), reading of lines, and the read buffering of `grep`; texts for `grep` are without their NUL.
- A state EMBRYO: it is entered and left under PROCS within `alloc`, so no critical section sees it.
- Serial numbers of processes, and the records of births, ends and collections, are kept for the statements only.
- The underscore `mkfs` drops in front of a file name, and its messages.
- MkfsBuild.Build: requires at most 1022 files; with more, inode numbers reach the number in the super block, and from 1055 files on the last inode is written into the bit map block and then overwritten (`InodesFit`).
- PageTables.PageTable.FreeUserPages: requires the end of the range to lie in the user half, where the callers keep it.
- MkfsBuild.Maker.Iappend: stops when fewer than two blocks are left in the image, where the code would write beyond it; such a run ends without an image anyway, because the bit map block cannot cover so many blocks.
- Allocator.Heap.Sbrk: has one limit for growing, where `PageGrow.AdjSize` has the exact condition; other callers of `sbrk` are not modelled, and a call of `malloc` that lowers the break ends where the code would write beyond it.
- Fs.Volume.Update: keeps the stored inode as a record; its bytes in the inode block are not modelled.
- LogProtocol.ScribbleInv: an unlogged change of a block that is in the log becomes part of the transaction, as the code then commits the cached contents.
