# A proof model of a small x86-64 kernel

The repository is a hobby kernel for x86-64 in C++: a Unix-like file system on 512-byte blocks, a buffer cache, a
physical page allocator, four-level page tables, a kernel heap, and a process table with fork, exit and wait.  This
project models those parts in Dafny and proves what they are for.

| files | part |
|---|---|
| `Bytes`, `DiskFormat`, `Fsck`, `Growth`, `BlockUse` | the disk as bytes: codecs, the whole-disk invariant, how single changes keep it, and which blocks a file takes |
| `FileSystem`, `Inodes`, `InodeTable`, `InodeRefs` | bitmap, block-by-block reading and writing, the in-memory inode table |
| `DirectoryFormat`, `Directory`, `PathNames`, `Path`, `Format`, `NewDisk` | directories as finite maps, path resolution, formatting |
| `BufferCache`, `RecentBlocks`, `BlockStore` | the LRU write-back cache over a device that may fail |
| `FileSystemRuns` | whole runs of the file system from formatting on, and the ways out of its invariant |
| `Machine`, `PageAllocator` | the page bitmap and its construction from the memory map |
| `Boot` | the page tables that the boot code leaves behind |
| `PageTables`, `VirtualMemory`, `AddressSpaces`, `Teardown`, `Lifecycle` | tables in physical frames: mapping, deep copy, destruction, conservation |
| `HeapBlocks`, `Heap` | the block list of the heap, on top of the page tables |
| `ProcessTable`, `ProcessSteps`, `ProcessRuns`, `ProcessEffects`, `ProcessLosses`, `Processes` | scheduling, sleep and wakeup, process life, and what is lost for good |
| `OpenFiles`, `FileIo`, `FileRefs` | open files, what a read returns after any writes, who holds the inode table |

Code that changes things in place is a class whose methods update its fields (`FileSystem.State`, `BufferCache.Cache`,
`PhysicalMemoryManager`, `VirtualMemoryManager`, `Heap`, `Kernel`); the loops are those of the source, some long
functions being cut into several methods.  Beside each class stands a specification on values, about which the lemmas
are.  Quantified invariants are split into one predicate per slot, block, entry or node, so that a proof names the
instances it uses.

How to read the main ideas:

* `Fsck.Sound(d, owner)` is the whole-disk invariant.  `owner` is the inverse of "inode n, slot q refers to block b",
  so no block is referred to twice, every reference is in the data area and marked, every marked data block is
  referred to, and every position below a file's size is mapped.  `Inodes.Valid` adds the bytes of superblock, inodes
  and bitmap, the boot block as it was, and the in-memory inode table.
* `Path.RoomFor` says that the inode table has room for every step of a walk, which holds one inode while it takes the
  next; `FileSystemRuns.CanLinkAt` adds room in the directory.
* `BufferCache.Cache.Content(n)` is block n as the layers above see it.  The file-system modules work on that array of
  blocks; `BlockStore.Transaction` and `NestedTransactions` are the bridge.  `falls` lists the buffers whose count has
  fallen to zero, from the start; the list of buffers is sorted by it, and `RecentBlocks` says what that means.
* `PageTables.WellFormed(t)` says that frames form trees: `role` names the one place every table or private page has,
  `at` is its inverse.  `PrivateSpace` is a user space below PML4 entry 0; `Moved` says that frames have only gone
  from the pool into one space.  `KernelShared` says that all spaces have the same kernel half.
* `PageTables.Missing` is the number of tables that the way to an address lacks.  `TablesMade` is what a mapping does
  to tables and pool, and `Heap.Cost` and `AddressSpaces.CopyCost` sum it up for a growing heap and for a copied
  space.
* `HeapBlocks.ListOk(l)` is the tiling of the heap.  `Live(l)`, the blocks in use, determines everything else.
* `ProcessTable.Inv(t)` is the process invariant, `ProcessRuns.Takes` the step relation, `IsRun` a whole run;
  `ProcessEffects.Does` writes out what each step does.

## Where the code and its promises part

* `allocate_inode` (include/inode.cpp:58-83) takes the first inode of type unused.  If a live slot still holds that
  number the slot goes stale, and if the inode still has blocks they are lost; `InodeTable.AllocateInode` states the
  exact condition, `StaleStays` and `FreshLeaks` that it is needed.  `FileSystemRuns.StaleSlot` is a run of two calls
  into the first case, `LostBlock` a run into the second: `write_data` does not look at the type, and writes into an
  unused inode as into any other.  `ServeRequests` are the runs that lead into neither.
* `directory_link` (include/directory.cpp:82-84) takes any number from 1 to 65535 and `get_inode`
  (include/inode.cpp:28-56) any number at all, although there are 200 inodes.  `Path.LinkKeepsNumbers` and
  `InodeTable.GetInode` are the exact conditions, `FileSystemRuns.WildNumber` is a run that leaves an entry for inode
  500, a data block read as inodes. `write_data` (include/inode.cpp:220-254) writes into a directory as into any other
  file, which is how the repository's own tests clear entries; two bytes over the number of an entry do the same as a
  wild link (`BytesOverEntry`). `FileSystemRuns.Write` and `LinkInto` state exactly when a directory stays in order.
  Paths can be walked for as long as every entry names an inode, which is the `NumbersOk` that path resolution
  requires.
* `is_valid_name` lets NUL through while `is_name_equal` stops at it (include/directory.cpp:17-41), and names are
  padded with it; `DirectoryFormat.NulShadows` is the exact condition for a second name to find an entry, and the map
  laws are for NUL-free names, which never collide (`NulFreeNamesDoNotCollide`).
* The end of the multiboot information is computed in 32 bits (include/pmm.cpp:84-87); `InfoIsProtected` is the exact
  condition.  `free_pages` is decremented for kernel pages that were never counted (include/pmm.cpp:71-81), and counts
  pages past the last one that can be handed out: the constructor states when it is right, `ServeRequests` that the
  error then stays the same, `CounterAndPool` when it is the number of pages in the pool.
* The allocator counts the pages of the available entries (include/pmm.cpp:34-39) but manages that many pages in a row
  from the first one on: a gap between two entries takes as many pages from the end of the last.  `AllManaged` is the
  exact condition for no page to be lost that way.
* `get_or_create_table` (include/vmm.cpp:245-272) fills or widens a kernel-half entry in one PML4 only.  The kernel
  halves of all spaces stay the same exactly if the entry is there with the rights asked for, there is no other space,
  or the pool is empty so that none can be made (`PageTables.SharedIff`, with `MapPage`, `MapPageIn` and `FindTable`).
  In a slot that no space has, the page is then seen by the current space alone (`VirtualMemory.HalvesComeApart`); in
  a slot that another space has, the two have different tables for one place (`PageTables.SecondKernelTable`), and the
  mapping functions are proved for the other slots.  Creating, copying into and destroying spaces and mapping below
  the kernel half keep the halves the same, and so does the heap, which all spaces have at the same place for that
  reason (`Heap.InEverySpace`).
* The walking functions (include/vmm.cpp:181-237, 245-272) do not look at the page-size bit, although the boot code
  makes the direct map of 2 MiB pages (`Boot.BootTablesAreInOrder`): below one they take the page itself for a table
  (`PageTables.LargePageIsFollowed`).  Mapping and unmapping are proved for addresses that no large page covers,
  `NoHuge`, which is every address outside the first GiB of the direct map.
* A page below PML4 entry 0 that lacks the user bit is neither copied nor freed (include/vmm.cpp:86-104): its frame
  never returns to the pool.  `Lifecycle.WholeLife` states that exactly these pages are lost, `PlainPageIsLost` is the
  run for one.
* `unmap_page` (include/vmm.cpp:181-211) clears the entry and no more: the frame of a private page belongs to no space
  afterwards and is not in the pool either, as `UnmapPage` states.
* `destroy_address_space` (include/vmm.cpp:404-441) does not ask whether the space is the current one: the state stays
  valid exactly if it is not (`Teardown.DestroyAddressSpace`).  `mark_dirty` (include/buffer_cache.cpp:177-183) does
  not ask whether the buffer holds a block: the cache stays valid exactly if it does (`BufferCache.Cache.MarkDirty`).
* A buffer released with neither a write nor a mark after a store loses the store; `Release` keeps the cache valid
  exactly if the buffer is in step.
* `trampoline` (include/process.cpp:102-117) wakes no parent and hands no children over: `ThreadMayReturn` is the
  exact condition for that to be harmless, `ProcessLosses.ReturnCanLoseWakeup` a run from the empty table to where it
  is not, and `SleepsForGood` says that the parent then sleeps on unless somebody wakes that very process.
* The comment at include/process.cpp:517 says that a failing `copy_user_pages` frees what it has copied.  It does not;
  `destroy_address_space`, which the failure path calls next, does (`CopyAndDestroy`).
* The comment at include/heap.hpp:41 says that `size` includes the header; the code keeps the payload alone there.
* When `sbrk` fails for want of memory (include/heap.cpp:55-67) it has used up the whole pool: the pages mapped so far
  stay mapped and are not reused, the next attempt maps new ones over them, and a frame taken just before a failing
  `map_page` is never returned.  `Sbrk` states exactly when a failed call leaves the pool as it was;
  `FailedGrowthEmptiesThePool` shows the loss.
* `exit` of init itself leaves its children with a dead parent, and orphans are handed to it ever after: nobody will
  reap them (`ProcessLosses.ExitAbandons`, `AbandonedForGood`).  The invariant allows init, and only init, that.
* `wait` from the kernel's own context (include/process.cpp:439-483) reaps any zombie without a parent, a dead init or
  the owner of the address space still loaded among them; `ProcessSteps.OrphanReaped` is the exact condition for that
  to be harmless.  No caller in the repository does this.

## Model

| member | source | states |
|---|---|---|
| `Bytes.BytesOfWord` | include/file_system.hpp:90-110 | a 32-bit number survives being stored as four bytes, which are its digits to base 256, the lowest first |
| `Bytes.BytesOfHalf` | include/file_system.hpp:118-123 | the same for 16 bits and two bytes |
| `Bytes.BitOpsOnByte` | include/file_system_internal.cpp:57-67 | setting or clearing one bit of a byte sets or clears that bit and no other |
| `Bytes.BitIsDigit` | include/file_system_internal.cpp:57-67 | bit i of a byte is its binary digit of weight 2^i |
| `DiskFormat.DecodeEncodedInode` | include/file_system.hpp:101-110 | a 64-byte inode image decodes to the inode it was made from |
| `DiskFormat.LoadStoredInode` | include/file_system_internal.cpp:69-86 | storing one of the eight inodes of a block makes it readable again and leaves the other seven as they were |
| `DiskFormat.ZeroBlockHoldsFreshInodes` | include/file_system.cpp:74-80 | a cleared block holds eight unused inodes |
| `DiskFormat.TableEntryAfterPut` | include/inode.cpp:141-183 | writing one of the 128 entries of an indirect block changes that entry only |
| `DiskFormat.LoadStoredSuper` | include/file_system_internal.cpp:41-48 | the superblock that format writes is the one that mounting reads |
| `Fsck.NoBlockIsShared` | include/inode.cpp:139-183 | on a sound disk no block number occurs twice among the direct, indirect and table entries of all inodes |
| `Fsck.UsedIffReferenced` | include/file_system.cpp:155-188 | a data block is marked used exactly if some inode refers to it: nothing is lost and nothing dangles |
| `Fsck.IndirectBlockIsPrivate` | include/inode.cpp:141-183 | changing the indirect block of one file changes the entries of that file only |
| `Fsck.SoundAfterLink` | include/inode.cpp:141-183 | hanging a free, marked block into an empty slot keeps the disk sound |
| `Fsck.SoundAfterResize` | include/inode.cpp:236-248 | a new size keeps the disk sound if every position below it is mapped |
| `Fsck.PackedAfterInodeWrite` | include/file_system_internal.cpp:69-77 | writing one inode keeps the stored metadata in agreement with the abstract inodes and bitmap |
| `Fsck.PackedAfterBitWrite` | include/file_system_internal.cpp:57-67 | the same for writing one bit of the bitmap |
| `Fsck.InodesStandAt` | include/file_system_internal.cpp:69-86 | field by field, at which byte of which block inode n stands |
| `Fsck.BitsStandAt` | include/file_system_internal.cpp:57-67 | at which binary digit of which byte the bit of a block stands |
| `Fsck.BytesStandAt` | include/inode.cpp:112-137 | on a sound disk byte i of a file is byte i mod 512 of the block that address i div 512 names, or from block 12 on of the one whose number stands at that place in the indirect block |
| `Fsck.ContentAt` | include/inode.cpp:112-137 | the bytes of a file, one by one, are those that its slots lead to |
| `Growth.LinkAddr` | include/inode.cpp:141-183 | taking a block as a direct block or as an empty indirect block keeps the disk sound and every file as it was |
| `Growth.LinkEntry` | include/inode.cpp:141-183 | the same for an entry of the indirect block |
| `Growth.SplicedContent` | include/inode.cpp:220-254 | bytes changed block by block from the offset on are the splice of the byte sequence |
| `BlockUse.GrownTakesForSlots` | include/inode.cpp:141-183 | when a file has grown on a sound disk, the blocks newly marked are exactly those in its newly filled slots, one in each |
| `BlockUse.RoundFallsShort` | include/inode.cpp:227-234 | a write that stops early has taken nothing that one more byte does not need, all that was clear is taken, and that byte needs more |
| `BlockUse.CompleteIff` | include/inode.cpp:220-254 | a write is complete exactly if as many bits were clear as it needs: one for each block of the range that the file lacks, and one for a missing indirect block if a byte lies behind the first twelve |
| `FileSystem.State.GetDiskInode` | include/file_system_internal.cpp:79-86 | reads the inode of that number from the block that the number selects, also behind the inode area; fails exactly if the device ends before that block |
| `FileSystem.State.WriteDiskInode` | include/file_system_internal.cpp:69-77 | changes that inode and nothing else |
| `FileSystem.State.ZeroBlock` | include/file_system_internal.cpp:49-56 | clears one block |
| `FileSystem.State.MarkBlockUsed` | include/file_system_internal.cpp:57-67 | sets the bit of one block and no other |
| `FileSystem.FirstClearBit` | include/file_system.cpp:155-188 | the first clear bit of a bitmap block below the limit, or none |
| `FileSystem.State.AllocateBlock` | include/file_system.cpp:155-188 | the lowest block whose bit is clear, now marked and cleared; fails exactly if every bit is set |
| `FileSystem.State.FreeBlock` | include/file_system.cpp:190-200 | clears the bit of one block and no other |
| `Inodes.CanBeRemounted` | include/file_system_internal.cpp:41-48 | in every valid state block 1 holds the superblock, each field at its place and with its value |
| `Inodes.FindBlock` | include/inode.cpp:112-137 | the block behind a logical index, over direct and indirect entries |
| `Inodes.AllocateOrFindBlock` | include/inode.cpp:141-183 | maps a logical block that was not mapped to a fresh one; newly taken are exactly that block and, from block 12 on, a missing indirect block; it fails only on a full disk, and then the disk is sound and no file has changed |
| `Inodes.ReadData` | include/inode.cpp:188-215 | exactly bytes [offset, offset + min(count, size - offset)) of the file; fails exactly for an offset behind the end; changes nothing |
| `Inodes.WriteData` | include/inode.cpp:220-254 | the file becomes its splice with the first `done` bytes at the offset, and all other inodes and files stay; newly taken are exactly the missing blocks of the range and a missing indirect block that it needs, and `done` is everything exactly if so many bits were clear |
| `Inodes.WriteIsSplice` | include/inode.cpp:220-254 | what the copy loop has done, seen on the disk once the inode is written, is the splice, and other files are as before |
| `InodeTable.GetInode` | include/inode.cpp:28-56 | one more reference to the one slot of that inode, else the first free slot; fails exactly if it is not in the table and no slot is free or the device ends before it; the state stays valid exactly if it fails or the number is below 200 |
| `InodeTable.PutInode` | include/inode.cpp:85-91 | one reference to that inode less, no other count changes |
| `InodeTable.AllocateInode` | include/inode.cpp:58-83 | the first unused inode becomes one of the given type with no size, links, device or blocks; the reference is to the slot that holds it or the first free one, and there is none exactly if neither exists; the state stays valid exactly if that inode is in no live slot and has no blocks |
| `InodeTable.StaleStays` | include/inode.cpp:28-83 | a live slot of the number that is taken keeps its old copy: the table agrees with the disk exactly if there was none |
| `InodeTable.FreshLeaks` | include/inode.cpp:65-75 | giving out an unused inode that still has blocks loses them |
| `InodeRefs.InodeRef.Move` | include/inode.hpp:58-61 | the reference changes hands |
| `InodeRefs.InodeRef.Reset` | include/inode.hpp:75-83 | drops exactly the reference held; a second call drops none |
| `InodeRefs.InodeRef.Assign` | include/inode.hpp:63-72 | of two references exactly the one overwritten is dropped; self-assignment does nothing |
| `DirectoryFormat.IsValidName` | include/directory.cpp:17-27 | true exactly for names of 1 to 14 bytes without a slash |
| `DirectoryFormat.IsNameEqual` | include/directory.cpp:31-41 | agrees with the declarative comparison of a padded name |
| `DirectoryFormat.NameEqualIsEquality` | include/directory.cpp:31-41 | for NUL-free names the comparison with a stored name is equality |
| `DirectoryFormat.NulShadows` | include/directory.cpp:17-41 | a linked name is found under another valid name as well exactly if it is shorter than 14 bytes or has a NUL behind its first byte |
| `DirectoryFormat.NulShadowsExample` | include/directory.cpp:17-41 | "a", NUL, "b" is found under "a", and "a" under "a", NUL |
| `DirectoryFormat.NulFreeNamesDoNotCollide` | include/directory.cpp:17-41 | names without NUL never stand for one another |
| `DirectoryFormat.EntryLayout` | include/file_system.hpp:118-122 | where the number and the name stand in an entry, and that the rest is zero |
| `DirectoryFormat.FreeMeans` | include/directory.cpp:88-104 | no entry before the one found is free, and none at all if none is found |
| `DirectoryFormat.FindMeans` | include/directory.cpp:55-76 | the scan finds the first live entry of that name, and one exactly if there is one |
| `DirectoryFormat.FindAfterLink` | include/directory.cpp:78-112 | after writing the new entry the new NUL-free name is found there, and every other NUL-free name as before |
| `DirectoryFormat.LinkKeepsDistinct` | include/directory.cpp:78-112 | live names stay distinct |
| `DirectoryFormat.LinkDistinctIff` | include/directory.cpp:78-112 | for any name: live names stay distinct exactly if no live entry has the name as it is stored |
| `DirectoryFormat.TakenIsFound` | include/directory.cpp:31-76 | a NUL-free name is taken in that sense exactly if looking it up finds it |
| `DirectoryFormat.LinkExtendsMap` | include/directory.cpp:78-112 | linking extends the finite map of the directory at the new name and nowhere else |
| `DirectoryFormat.ClearShrinksMap` | tests/directory_test.cpp:22-31 | overwriting the entry of a name with zeros takes that name out of the map and leaves all others |
| `DirectoryFormat.ClearUndoesLink` | tests/directory_test.cpp:22-31 | linking and then clearing leaves the map as it was |
| `Directory.Lookup` | include/directory.cpp:55-76 | the value of the directory map at the name, or nothing |
| `Directory.ScanForLink` | include/directory.cpp:88-104 | one pass tells whether the name exists and which entry is the first free one |
| `Directory.EntryIsNotCut` | include/directory.cpp:78-112 | a 16-byte entry never straddles a block, so it is written whole or not at all |
| `Directory.Link` | include/directory.cpp:78-112 | the directory becomes the map extended by the entry, or, if it consists of whole entries, stays as it was; refused exactly for a bad name, number or file, an existing name, or without both a free entry and the blocks that one more entry needs; no other block is taken |
| `Format.ClearedIsPacked` | include/file_system.cpp:74-89 | cleared metadata blocks are an empty inode table and an empty bitmap |
| `Format.AddRootEntry` | include/file_system.cpp:15-54 | one entry written into the first free place of the root block, allocated for the first entry |
| `Format.FormattedIsSound` | include/file_system.cpp:57-127 | the disk that format makes satisfies the whole-disk invariant |
| `Format.RootHoldsItsEntries` | include/file_system.cpp:103-120 | the root directory reads as the two entries "." and ".." |
| `Format.Format` | include/file_system.cpp:57-127 | succeeds exactly if there is room for a data block, whatever was on the device, and then leaves a sound disk with one directory: every other inode is unused, beyond the metadata one block is marked, and the boot block is as before |
| `NewDisk.FormattedTree` | include/file_system.cpp:112-127 | on a new disk "." and ".." resolve to the root, no other NUL-free name is found, and every entry names an inode |
| `NewDisk.MakeFileSystem` | include/file_system.cpp:57-127 | a formatted device is a file system whose paths can be resolved |
| `PathNames.SlashSeparates` | include/path.cpp:12-23 | the components of a path are those before and those behind any slash |
| `PathNames.ExtraSlashesDoNotMatter` | include/path.cpp:12-36 | leading, trailing and repeated slashes change no component |
| `PathNames.ComponentsOfJoin` | include/path.cpp:12-23 | splitting what was joined with slashes gives the names back |
| `PathNames.NextComponent` | include/path.cpp:12-23 | cuts off the first component and leaves the others |
| `PathNames.HasComponent` | include/path.cpp:26-34 | true exactly if a component is left |
| `Path.ParentAgrees` | include/path.cpp:38-92 | resolving the parent and looking the last name up there is resolving the whole path |
| `Path.ParentMeans` | include/path.cpp:38-92 | the parent is what the path without its last component leads to, if that is a directory |
| `Path.WalkConcat` | include/path.cpp:38-73 | walking a longer path is walking its beginning and then the rest |
| `Path.WalkFromRoot` | include/path.cpp:38-73 | the loop arrives where folding lookup over the components arrives |
| `Path.TwoSlotsSuffice` | include/path.cpp:38-73 | with two free slots in the inode table no walk fails for want of room |
| `Path.RoomForNext` | include/path.cpp:66-67 | a reference to the next inode can be had exactly if it is in the table, or is the one in hand, or a slot is free beside the one of the inode in hand |
| `Path.ResolvePath` | include/path.cpp:80-83 | the inode that folding lookup from the root finds, with one new reference to it and no other count changed; it succeeds exactly if there is one and the inode table has room for every step of the way |
| `Path.ResolveParent` | include/path.cpp:85-92 | the directory that the path without its last component leads to, and that component, under the same conditions |
| `Path.LinkKeepsNumbers` | include/directory.cpp:78-112 | after linking every directory entry names an inode exactly if the linked number is below 200 |
| `Path.StepAfterLink` | include/directory.cpp:55-112 | after linking the new name is found in its directory, and every other NUL-free name in every directory as before |
| `Path.WalkAfterLink` | include/path.cpp:38-73 | a path that resolved before resolves to the same inode after linking |
| `Path.LinkedPathResolves` | include/path.cpp:38-92 | the path of the parent directory and the new name resolves to the linked inode |
| `Path.NewWalksUseTheEntry` | include/path.cpp:38-73 | a path that resolves differently after linking passes through the new entry |
| `FileSystemRuns.TidyIsSafe` | include/inode.cpp:58-83 | in a tidy state every unused inode may be given out and every path may be walked |
| `FileSystemRuns.Get` | include/inode.cpp:28-56 | one more reference keeps the state tidy exactly if there is none or the inode is in use |
| `FileSystemRuns.Create` | include/inode.cpp:58-83 | giving out an inode keeps the state tidy, and the inode is empty; it fails exactly for type unused, without a free slot, or without an unused inode |
| `FileSystemRuns.Write` | include/inode.cpp:220-254 | writing bytes into any file keeps the whole-disk invariant, and keeps the state tidy exactly if the file written is afterwards no directory or a directory in order; complete exactly if there were as many clear bits as it needs |
| `FileSystemRuns.ClearName` | tests/directory_test.cpp:22-31 | looking a name up and overwriting its entry with zeros: the name is gone, the others are found as before, and the state stays tidy |
| `FileSystemRuns.LinkInto` | include/directory.cpp:78-112 | linking any number under any name, with the exact condition for success: the state stays tidy exactly if nothing was linked, or the number is that of an inode in use and the name as stored was not taken |
| `FileSystemRuns.LinkAt` | include/path.cpp:38-92 | resolving the parent and linking any number there, with the exact condition for success: the whole path then resolves to what was linked, what resolved before resolves as before, and the state stays tidy exactly if nothing was linked or an inode in use |
| `FileSystemRuns.ServeRequests` | include/inode.cpp:28-254 | from formatting on, in every run of requests for inodes in use, clearing of entries among them, the whole-disk invariant holds, directories are maps onto inodes in use, and every unused inode may be given out |
| `FileSystemRuns.StaleSlot` | include/inode.cpp:28-83 | on a new disk, looking up an unused inode and then allocating one leaves a state that is not valid |
| `FileSystemRuns.LostBlock` | include/inode.cpp:58-83 | on a new disk, writing a byte to the unused inode 2, putting it back and then allocating: unless the disk is full the state is not valid, although no slot was live |
| `FileSystemRuns.BytesOverEntry` | include/inode.cpp:220-254 | on a new disk, two bytes written into the root directory leave a valid state in which an entry names no inode |
| `FileSystemRuns.WildNumber` | include/directory.cpp:78-112 | on a new disk, linking the number 500 succeeds unless the disk is full, and leaves an entry that names no inode |
| `FileIo.LastWriteWins` | include/inode.cpp:188-254 | after any run of writes every byte is the one written there last, or one the file had before: growing never shows old block contents |
| `FileIo.LastWriterIsLast` | include/inode.cpp:220-246 | the write that counts was accepted, and each later one over the byte was refused |
| `FileIo.WriteRun` | include/inode.cpp:220-254 | a run of writes makes of the file what the run as cut says; a write is cut only for size or a full disk |
| `FileIo.FileRead` | include/file.cpp:92-112 | reads at the position of the open file and advances it by what was read |
| `FileIo.FileWrite` | include/file.cpp:114-138 | writes at the position and advances it by what was written, which is everything exactly if there were blocks enough; nothing for a file not open for writing |
| `FileRefs.TiedAtFirst` | include/file.hpp:24-32 | without open files every reference to a slot of the inode table is held elsewhere |
| `FileRefs.SysClose` | include/file.cpp:66-79 | every reference to a slot of the inode table is held by one open file or elsewhere; closing the last descriptor of a file gives back the one it held, any other none |
| `FileRefs.FileClose` | include/file.cpp:66-79 | the last reference to a file gives back the one inode reference it held, any other none |
| `FileRefs.CloseAllFiles` | include/process.cpp:80-87 | each slot of the inode table loses exactly as many references as files on it are closed for good |
| `FileRefs.Exit` | include/process.cpp:361-415 | when a process ends its open files give their inode references back, and every reference that is left is held by an open file or elsewhere |
| `FileRefs.FreeProcessResources` | include/process.cpp:417-437 | the same when all that a process owns is given back |
| `FileRefs.Fork` | include/process.cpp:636-673 | a fork moves no inode reference: parent and child share the open files |
| `FileRefs.OpenOnDisk` | include/file.hpp:24-32 | a reference moves into the open file, and all counts still agree |
| `BufferCache.Unlink` | include/buffer_cache.cpp:32-36 | the ring without this buffer, threaded in both directions |
| `BufferCache.LinkAsMostRecent` | include/buffer_cache.cpp:39-45 | the ring with this buffer in front |
| `BufferCache.Cache.constructor` | include/buffer_cache.cpp:120-150 | all buffers empty and threaded once, in the order of their making |
| `BufferCache.Cache.WriteBackBuffer` | include/buffer_cache.cpp:48-57 | the device gets the bytes and the buffer is clean, or neither changes |
| `BufferCache.Cache.Lookup` | include/buffer_cache.cpp:62-73 | the one valid buffer of that block, or none |
| `BufferCache.Cache.FindCached` | include/buffer_cache.cpp:79-113 | lends the cached buffer or recycles the unreferenced one whose count fell to zero longest ago; null exactly if the block is not cached and all buffers are in use or the oldest could not be written back; no logical block changes, and the list does not move |
| `BufferCache.Cache.Read` | include/buffer_cache.cpp:152-175 | lends a valid buffer that holds the logical content of the block; null exactly if the block is not cached and there is no buffer or the device fails to read, when the emptied buffer comes to the front; no logical block changes, else the list does not move, and the four statistics are exact |
| `BufferCache.Cache.Store` | include/buffer_cache.cpp:177-193 | a store into a lent buffer changes exactly that logical block |
| `BufferCache.Cache.MarkDirty` | include/buffer_cache.cpp:177-183 | the buffer will be written before it is dropped; the cache stays valid exactly if the buffer holds a block |
| `BufferCache.Cache.Write` | include/buffer_cache.cpp:185-193 | the device holds the bytes if it succeeds, dirty or not, and it fails only if the device does; no logical block changes, and a success counts as one write-back |
| `BufferCache.Cache.Flush` | include/buffer_cache.cpp:195-207 | every dirty buffer is written once, also behind one that fails: the failed writes are exactly those of the buffers still dirty, the others are on the device and counted, and no other block of the device changes; true exactly if none is dirty any more, and then buffers and device agree |
| `BufferCache.Cache.DeviceAgrees` | include/buffer_cache.cpp:195-207 | when all is synced and nothing dirty the device is the logical disk |
| `BufferCache.Cache.Release` | include/buffer_cache.cpp:209-222 | drops one reference; with the last one the list is that buffer followed by the others in their order, and its fall is the newest, else neither changes; the cache stays valid exactly if the buffer was in step with the device or marked dirty when the last one went |
| `BufferCache.LastFallMeans` | include/buffer_cache.cpp:209-222 | the age of a buffer is the last place it has in the list of all falls to zero |
| `RecentBlocks.Ask` | include/buffer_cache.cpp:79-222 | reading a block and giving it back does to the ring what moving to the front does to a plain list of block numbers, failed reads included |
| `RecentBlocks.RanksInRun` | include/buffer_cache.cpp:79-222 | in front of a block in that list are exactly the blocks asked for since |
| `RecentBlocks.CachedIff` | include/buffer_cache.cpp:79-222 | after any run of requests without errors a block is in the list exactly if fewer other blocks than there are places have been asked for since |
| `RecentBlocks.NewCacheIsLru` | include/buffer_cache.cpp:120-222 | from a new cache on, over any run of reads and releases without errors, a block is cached exactly if fewer than 30 other blocks have been asked for since |
| `BlockStore.ReleaseNumber` | include/buffer_cache.cpp:249-252 | looking the buffer up by number finds the very one that was lent; with the last reference it comes to the front of the list |
| `BlockStore.BlockRef.Move` | include/block_store.hpp:54-58 | the loan changes hands |
| `BlockStore.BlockRef.WriteBack` | include/block_store.hpp:96-103 | writes the lent bytes; nothing without a loan |
| `BlockStore.BlockRef.Reset` | include/block_store.hpp:105-113 | gives the loan back once |
| `BlockStore.Transaction` | include/buffer_cache.cpp:234-252 | borrow, change, write back and return act as one array assignment on the logical disk; refused only without a buffer or for a device error, and the write fails only for one |
| `BlockStore.NestedTransactions` | include/inode.cpp:166-181 | while one block is held another is borrowed, written and returned: the loan held stays good, and without errors both assignments are made on the logical disk |
| `PageAllocator.PhysicalMemoryManager.constructor` | include/pmm.cpp:6-87 | managed are as many pages as lie wholly inside the available entries, summed over the map, or 65536, from the first page of the first such entry on; free are exactly the managed pages wholly inside an available entry, at or above the kernel end, not page 0 and not touched by the protected boot information; `free_pages` is the number of clear bits exactly if there are none or the kernel ends at or below the first managed page |
| `PageAllocator.AllManaged` | include/pmm.cpp:23-60 | every page of the map is managed exactly if each entry lies between the first page and as many pages behind it as were counted: a gap costs as many pages at the end |
| `PageAllocator.OneEntryIsManaged` | include/pmm.cpp:23-60 | with one usable entry of at most 65536 pages all of them are managed |
| `PageAllocator.PhysicalMemoryManager.Allocate` | include/pmm.cpp:129-141 | the lowest free page, not free any more; none exactly if no page is free; the counter keeps its distance from the truth |
| `PageAllocator.PhysicalMemoryManager.Free` | include/pmm.cpp:89-101 | the page is free again; addresses outside the managed range and free pages are ignored |
| `PageAllocator.PhysicalMemoryManager.ReserveRegion` | include/pmm.cpp:103-126 | exactly the pages that touch the region are taken out of the pool |
| `PageAllocator.ServeRequests` | include/pmm.cpp:6-141 | in any run of requests pages held and pages free are together exactly the usable managed ones, of which there are as many as the map contains or 65536: none is handed out twice, none is lost; when the counter is right throughout |
| `PageAllocator.PhysicalMemoryManager.CounterAndPool` | include/pmm.cpp:36-87 | after construction the counter is the number of pages that can be handed out exactly if as many bits past the last page are clear as pages were wrongly subtracted, or nothing is free and fewer are |
| `PageAllocator.InfoIsProtected` | include/pmm.cpp:84-87 | every page of the boot information is protected exactly if its end stays below 2^32 |
| `Boot.SetupPaging` | boot/boot.asm:113-188 | the tables that the boot code leaves, frame by frame, with the identity map removed again |
| `Boot.BootTablesAreInOrder` | boot/boot.asm:113-182 | they form trees with one space; exactly the first GiB of the direct map is large pages |
| `Boot.HeapRangeIsReady` | include/heap.hpp:20-30 | a heap can be made in any range of the slot of the image, and every space made from then on shares it |
| `Boot.ImageIsMapped` | boot/boot.asm:139-161 | every byte of the first 2 MiB is found at its high address, writable and without user access, and the lower half is empty |
| `Boot.DirectMapIsLarge` | boot/boot.asm:162-182 | every byte of the first GiB lies in a writable large page of the direct map, at its place |
| `PageTables.WordOfValue` | include/vmm.cpp:38-41 | the fields of a 64-bit entry lose nothing of its value |
| `PageTables.ValueOfWord` | include/vmm.cpp:38-41 | and the value loses nothing of the fields |
| `PageTables.EntryIsSum` | include/vmm.cpp:165-179 | an entry is the page address with the flags and the present bit, as a number and field by field |
| `PageTables.LowFlagsAreLowBits` | include/vmm.cpp:371-376 | the flags of a copy are the twelve low bits of the entry |
| `PageTables.AddressOfIndex` | include/vmm.cpp:143-147 | the four indices are the nine-bit digits of the address above the offset |
| `PageTables.IndexOfUserAddress` | include/vmm.cpp:111-113 | the address the visitor is given has the indices it was made of |
| `PageTables.PtOfWalk` | include/vmm.cpp:213-237 | on well-formed tables a walk ends in the table of its own place |
| `PageTables.AddTableKeepsOrder` | include/vmm.cpp:245-272 | a new empty table keeps the trees disjoint and changes no translation of any space |
| `PageTables.SecondKernelTable` | include/vmm.cpp:245-263 | a table made in a kernel slot that another space already has a table in leaves frames that no longer form trees sharing the kernel half |
| `PageTables.WidenKeepsOrder` | include/vmm.cpp:265-271 | widening the rights of an upper entry changes no translation |
| `PageTables.PutLeafWalks` | include/vmm.cpp:165-179 | a last-level store changes the translation of that page, in the spaces that share it, and of no other |
| `PageTables.MovedConserves` | include/vmm.cpp:245-272 | free pages and frames of a space together stay the same set |
| `PageTables.WriteOutside` | include/vmm.cpp:366-375 | a store outside the tables changes no translation |
| `PageTables.FoundIsWalk` | include/vmm.cpp:213-237 | what the code finds by following present entries is what the processor finds, for an address that no large page covers |
| `PageTables.LargePageIsFollowed` | include/vmm.cpp:213-237 | under a large page the code takes the page itself for a table |
| `PageTables.SharedIff` | include/vmm.cpp:245-272 | a mapping leaves all spaces with the same kernel half exactly if the slot is below it, there is one space, the entry was there with the rights asked for, or the pool was empty |
| `PageTables.KernelAfterMapping` | include/vmm.cpp:143-179 | the same condition, and what the other spaces see of a kernel page that has been mapped: the same if the entry was there, else nothing |
| `PageTables.SharedWalk` | include/heap.hpp:28-29 | with the same kernel half all spaces see the same there |
| `PageTables.UnmapWalks` | include/vmm.cpp:181-211 | clearing an entry takes the page from every space that shares it, and nothing else from any |
| `PageTables.ElsewhereKept` | include/vmm.cpp:245-272 | a mapping leaves the tables of other spaces, and for a page of a space those of the kernel half, byte for byte as they were |
| `PageTables.MissingAfterMapping` | include/vmm.cpp:245-272 | how many tables are still missing for another page once one has been mapped |
| `PageTables.AddRootKeepsOrder` | include/vmm.cpp:274-297 | a new PML4 shares the kernel half and nothing else |
| `PageTables.SharedWithNewRoot` | include/vmm.cpp:274-297 | a new space has the kernel half that all others have |
| `VirtualMemory.VirtualMemoryManager.GetOrCreateTable` | include/vmm.cpp:245-272 | the child table, made if missing and no other space has one in that kernel slot, and opened wider by exactly the rights asked for if there; a new one is empty and costs one page; fails exactly if it is missing and the pool is empty, and then nothing changes |
| `VirtualMemory.VirtualMemoryManager.FindTable` | include/vmm.cpp:143-164 | all three levels present and opened by exactly the asked access, no other entry changed; succeeds exactly if the pool has a page for each missing table, and each page taken becomes one; on failure no translation has changed |
| `VirtualMemory.VirtualMemoryManager.MapPage` | include/vmm.cpp:143-179 | on success that page translates to the frame, with writable, user and other bits as asked, and no page that does not share its table another way; on failure none does; succeeds exactly if the pool has a page for each missing table and takes those only; with the exact condition for the kernel halves to stay the same and what the other spaces see of a kernel page |
| `VirtualMemory.VirtualMemoryManager.MapPageIn` | include/vmm.cpp:313-353 | the same in a given space; a fresh user page becomes part of the space |
| `VirtualMemory.HalvesComeApart` | include/vmm.cpp:245-297 | a second space is created and a page mapped in a kernel slot that no space has: the current space sees it, the other does not, and the state is still valid |
| `VirtualMemory.VirtualMemoryManager.UnmapPage` | include/vmm.cpp:181-211 | removes that translation, in every space for a kernel page, and no other: one entry is cleared and nothing else in memory changes; private spaces stay private, and the frame of a private page loses its role without returning to the pool |
| `VirtualMemory.VirtualMemoryManager.VirtualToPhysical` | include/vmm.cpp:213-237 | the frame that following present entries ends at plus the offset in the page, which is that of the walk where no large page is |
| `VirtualMemory.VirtualMemoryManager.SwitchAddressSpace` | include/vmm.cpp:302-310 | makes the space current; no address leaves all as it is |
| `VirtualMemory.VirtualMemoryManager.CreateAddressSpace` | include/vmm.cpp:274-297 | one page from the pool becomes a space with the kernel half of the current one and nothing of its own; no other page of memory changes; a kernel half that all spaces share is shared by the new one |
| `AddressSpaces.CopyUserPages` | include/vmm.cpp:355-391 | on success exactly the pages with the user bit have a copy at the same address with equal bytes, present, writable, user and other low bits on a frame of its own, and the rest none; on failure memory is exhausted; into a space without tables it succeeds exactly if the pool has a frame for each such page and each table over one, and takes those; either way no data and no table of another space has changed |
| `AddressSpaces.CopyPage` | include/vmm.cpp:361-382 | copies one page with its low bits, or fails for want of memory, gives the frame back, and then the pool was too small for the whole copy |
| `AddressSpaces.PaidAfterPage` | include/vmm.cpp:355-391 | a page copied has cost its frame and the tables that no page before it needed |
| `AddressSpaces.StoresAreIsolated` | include/vmm.cpp:355-391 | a store through a user page of one private space is seen by no other |
| `AddressSpaces.CopyIsIsolated` | include/vmm.cpp:355-391 | after a copy of any source a store through a page of the copy is not seen by the source, nor one through a page of the source by the copy |
| `Teardown.FreeUserPages` | include/vmm.cpp:394-402 | exactly the private pages of the space, which are those with the user bit, return to the pool |
| `Teardown.FreeTables` | include/vmm.cpp:414-438 | exactly the tables below PML4 entry 0 return |
| `Teardown.DestroyAddressSpace` | include/vmm.cpp:404-441 | exactly the frames of the space return to the pool, pages without the user bit not among them; every other space stays private and keeps its roles; the state stays valid exactly if the space is not the current one, whose table is in the pool otherwise |
| `Teardown.RemoveSpaceKeepsOrder` | include/vmm.cpp:404-441 | without the space the other trees are still well formed |
| `Lifecycle.AliveIsConserved` | include/vmm.cpp:274-441 | at every moment of its life what a space holds and the pool together are the pool at its creation |
| `Lifecycle.AddPage` | include/usermode.cpp:37-47 | a page from the pool is mapped with the fields asked for, exactly if the pool has that page and the missing tables, or given back; without the user bit it is a page that destroying the space will not give back |
| `Lifecycle.PlainPageIsLost` | include/vmm.cpp:86-104 | a space is created, given one page without the user bit and destroyed: the pool has changed exactly if the page was mapped, and then lacks that page |
| `Lifecycle.CopyAndDestroy` | include/process.cpp:512-522 | copying a space and destroying the copy, complete or not, restores the pool and every translation; it is complete exactly if the pool had one frame and what the copy costs |
| `Lifecycle.WholeLife` | include/vmm.cpp:274-441 | create, map any pages while memory lasts, copy, destroy both: the pool is what it was exactly if the pages have the user bit or none was mapped, and otherwise lacks as many pages as were mapped |
| `HeapBlocks.BlocksTile` | include/heap.cpp:109-204 | every address below the break lies in exactly one block |
| `HeapBlocks.PayloadsAreDisjoint` | include/heap.cpp:26-36 | payloads are aligned, inside the heap, and disjoint from each other and from all headers |
| `HeapBlocks.LiveDeterminesList` | include/heap.cpp:109-204 | the blocks in use and the break determine the whole list: there is only one well-formed one |
| `HeapBlocks.AllFreeIsOneBlock` | include/heap.cpp:176-204 | with nothing in use there is one block of brk - start - 32 bytes |
| `HeapBlocks.SplitKeepsOrder` | include/heap.cpp:122-137 | splitting keeps the tiling and the blocks in use |
| `HeapBlocks.MergeKeepsOrder` | include/heap.cpp:183-203 | merging two free neighbours keeps the tiling and the blocks in use |
| `HeapBlocks.ExtendKeepsOrder` | include/heap.cpp:151-171 | new pages join a free last block or become one, and hold the request |
| `HeapBlocks.TakenKeepsOrder` | include/heap.cpp:118-141 | the block taken is the only change to the blocks in use; its rest is cut off exactly if 64 bytes are left |
| `HeapBlocks.FreedKeepsOrder` | include/heap.cpp:176-204 | freeing removes exactly this block from those in use and leaves no two free neighbours |
| `Heap.Heap.constructor` | include/heap.cpp:84-107 | one page as one free block, which costs that page and the missing tables, exactly if range and pool allow it; else a heap that never allocates |
| `Heap.InEverySpace` | include/heap.hpp:28-29 | if all spaces had the same kernel half when the heap was made, then for as long as it is used every address space has it at the same addresses, page for page |
| `Heap.SwitchWithHeap` | include/vmm.cpp:302-310 | after going over to another address space the heap is in order as before |
| `Heap.Heap.Sbrk` | include/heap.cpp:39-71 | moves the break by the increment with a writable page of its own behind every address exactly if range and pool allow it, and takes from the pool exactly those pages and the tables missing on the way, or moves nothing; a failure leaves the pool as it was exactly if the range forbids the growth or the pool was empty, and otherwise empties it; a sum beyond 64 bits puts the break outside the range |
| `Heap.StillMissingAfter` | include/heap.cpp:53-67 | a page of a growing range needs only the tables that the page before it did not need |
| `Heap.Heap.FirstFit` | include/heap.cpp:118-122 | the lowest block that fits, or none fits |
| `Heap.Heap.Take` | include/heap.cpp:122-141 | the in-place header updates are the split and the mark |
| `Heap.Heap.AddPages` | include/heap.cpp:151-171 | the in-place header updates extend the list |
| `Heap.Heap.Allocate` | include/heap.cpp:109-174 | a payload large enough that lies in no block in use; a fit is taken without growing, the lowest first, and without touching the pool; else the heap grows, by exactly what that costs, and the retry succeeds without growing again; fails exactly if nothing fits and range or pool do not allow the growth, and then has emptied the pool unless the range was too small |
| `Heap.Heap.Free` | include/heap.cpp:176-204 | the block is out of use, all others in use stay, and the list is in order again |
| `Heap.ServeRequests` | include/heap.cpp:109-204 | in any run of requests the payloads held are exactly the blocks in use, each as large as asked for |
| `Heap.HeldAreDisjoint` | include/heap.cpp:109-204 | payloads held at the same time are aligned, inside the heap, and have no byte in common |
| `Heap.Heap.FreeAll` | include/heap.cpp:176-204 | freeing every block in use, in any order, leaves one free block over the whole heap |
| `Heap.FailedGrowthEmptiesThePool` | include/heap.cpp:55-67 | a request that costs more than the pool has fails, the pool is empty afterwards although the heap holds no more, and no later growth succeeds |
| `ProcessTable.AtMostOneRuns` | include/process.cpp:119-163 | at most one process runs, and it is the current one |
| `ProcessTable.PidsAreUnique` | include/process.cpp:170-190 | no two used slots have the same pid |
| `ProcessTable.OwnershipIsExact` | include/process.cpp:170-213 | every used slot owns one kernel stack and one address space, unused ones none, none is shared, and none is out without an owner |
| `ProcessTable.UnusedHasNoChildren` | include/process.cpp:393-437 | nobody has an unused slot as parent |
| `ProcessTable.NearestIsFound` | include/process.cpp:119-127 | the scan finds the runnable process nearest in cyclic order, if there is any |
| `ProcessTable.DispatchKeepsInv` | include/process.cpp:119-163 | a scheduling decision keeps the invariant |
| `ProcessSteps.StepBackKeepsInv` | include/process.cpp:290-306 | going to sleep or stepping back keeps the invariant, for sleep in wait if children exist and none is a zombie |
| `ProcessSteps.WokenKeepsInv` | include/process.cpp:313-322 | waking any channel keeps the invariant |
| `ProcessSteps.ExitKeepsInv` | include/process.cpp:355-415 | exit keeps the invariant: parent woken, children handed to init, init woken for inherited zombies |
| `ProcessSteps.ThreadMayReturn` | include/process.cpp:102-117 | returning from the entry function keeps the invariant exactly if the thread has no children or is init, and its parent does not sleep in wait |
| `ProcessSteps.ReapedKeepsInv` | include/process.cpp:443-470 | reaping frees what the dead child owned, which is not the loaded address space, and reports an end not reported before |
| `ProcessSteps.OrphanReaped` | include/process.cpp:417-470 | in the kernel context reaping a zombie without a parent keeps the invariant exactly if it is not init and its address space is not the loaded one |
| `ProcessSteps.BornKeepsInv` | include/process.cpp:636-673 | a new process disturbs no other |
| `ProcessSteps.NotBornKeepsInv` | include/process.cpp:185-212 | a failed creation leaves an unused slot |
| `ProcessSteps.InitChanges` | include/process.cpp:266-270 | replacing init keeps the invariant exactly if the old one is not a zombie with children |
| `ProcessRuns.RunKeepsInv` | include/process.cpp:56-675 | the invariant holds in every state of every run |
| `ProcessRuns.NoLostWakeup` | include/process.cpp:290-322 | in every run whoever sleeps in wait has a child and no zombie child |
| `ProcessRuns.LineageIsSafe` | include/process.cpp:393-437 | in every run parents exist, and a slot taken into use again starts without children |
| `ProcessRuns.ForkerIsParent` | include/process.cpp:393-437 | in every run a process has as parent the process that forked it, by pid, for as long as that one has not ended |
| `ProcessRuns.OrphanIsAdopted` | include/process.cpp:392-408 | afterwards its parent is init, or nobody |
| `ProcessRuns.ForkedOnce` | include/process.cpp:185-186 | in every run a pid is given to one process, forked once by one process |
| `ProcessRuns.ChildWasForked` | include/process.cpp:636-673 | in a run from the start whoever has a parent was forked |
| `ProcessRuns.StepComesCloser` | include/process.cpp:119-163 | a step that passes over a runnable process brings the scan closer to it |
| `ProcessRuns.RunnableRunsSoon` | include/process.cpp:119-163 | in every run a runnable process is chosen within 64 decisions, by schedule and schedule_from_zombie alike |
| `ProcessEffects.FirstIsChosen` | include/process.cpp:119-127 | the scan tries the slots behind the one that ran in turn, once around, and chooses the first that is runnable |
| `ProcessEffects.TakesDoes` | include/process.cpp:56-675 | what each step does, slot by slot and field by field, and to pids, stacks, address spaces and the processor, written out apart from the functions that the kernel is proved against |
| `ProcessEffects.YieldMeans` | include/process.cpp:273-281 | after a yield the process is runnable, or runs again, and nothing else about it or anybody else has changed but that the one chosen, which was runnable, runs |
| `ProcessEffects.YielderRunsAgain` | include/process.cpp:119-163 | in every run a process that yields stays runnable until it runs again, within 64 decisions |
| `ProcessEffects.WokenRunsSoon` | include/process.cpp:313-322 | in every run a process asleep on any channel that is woken runs within 64 decisions |
| `ProcessEffects.SleepsUntilWoken` | include/process.cpp:290-322 | whoever sleeps on a channel sleeps on it until that channel is woken; only in wait may the end of another process wake it as well |
| `ProcessRuns.ReportedOnce` | include/process.cpp:443-470 | in no run does wait report the same process twice |
| `ProcessRuns.StatusIsDelivered` | include/process.cpp:355-372 | what wait reports is what that process passed to exit; it is reported to the process that forked it, and to init exactly if that one has ended |
| `ProcessLosses.OnlyChildEnds` | include/process.cpp:102-117 | a thread whose parent waits for it as its only child and that returns leaves the parent asleep in wait with no child alive |
| `ProcessLosses.ReturnCanLoseWakeup` | include/process.cpp:102-117 | a run from the empty table, by creation, fork and wait, into such a state |
| `ProcessLosses.SleepsForGood` | include/process.cpp:290-322 | a process in that situation stays there in every run in which nobody wakes that very process |
| `ProcessLosses.ExitAbandons` | include/process.cpp:392-408 | when init exits its children stay with it, and later orphans are handed to it, dead as it is |
| `ProcessLosses.AbandonedForGood` | include/process.cpp:443-470 | in no run is a child of a dead init ever reaped |
| `OpenFiles.RefsAfterSetFd` | include/file.hpp:24-32 | changing one descriptor changes the number of references by exactly that one |
| `OpenFiles.FilesAfterClose` | include/file.cpp:66-79 | closing a descriptor keeps every count equal to the number of descriptors, and a file without any blank |
| `OpenFiles.FilesAfterOpen` | include/file.cpp:46-64 | the same for opening one |
| `OpenFiles.FileTableIsDetermined` | include/file.cpp:59-79 | with the same descriptors the file table is the same: closing undoes duplicating |
| `Processes.Kernel.constructor` | include/process.cpp:56-74 | all slots unused, all files free |
| `Processes.Kernel.FileAllocate` | include/file.cpp:46-57 | the first free entry, with one reference, or all are taken |
| `Processes.Kernel.FileClose` | include/file.cpp:66-79 | one reference less; the last one blanks the entry |
| `Processes.Kernel.CloseAllFiles` | include/process.cpp:80-87 | no descriptor is left open, and every count is exact |
| `Processes.Kernel.SysClose` | include/systemcall.cpp:37-71 | an open descriptor is cleared and its reference dropped, any other refused |
| `Processes.Kernel.EnterKernel` | include/systemcall.cpp:14-29 | a system call from user mode leaves a trap frame and changes nothing else |
| `Processes.Kernel.FindRunnable` | include/process.cpp:121-127 | the loop computes the cyclic scan |
| `Processes.Kernel.Schedule` | include/process.cpp:119-163 | the in-place scheduler makes the decision of the specification, address space included |
| `Processes.Kernel.ScheduleFromZombie` | include/process.cpp:327-351 | the same decision from a process that has ended |
| `Processes.Kernel.Yield` | include/process.cpp:273-281 | takes the yield step and keeps all invariants: the process is runnable, or running if chosen again, its channel and everything else about it as before, and no other process has changed but the chosen one, which was runnable |
| `Processes.Kernel.SleepOn` | include/process.cpp:290-306 | takes the sleep step; nothing in the kernel context |
| `Processes.Kernel.Resume` | include/process.cpp:303-306 | the channel is forgotten when the process runs again, and nothing else changes |
| `Processes.Kernel.Wakeup` | include/process.cpp:313-322 | exactly the sleepers on the channel become runnable |
| `Processes.Kernel.Exit` | include/process.cpp:355-415 | the loops take the exit step, with exact reference counts |
| `Processes.Kernel.Reparent` | include/process.cpp:392-408 | the loop over the children does what the specification says slot by slot |
| `Processes.Kernel.ReturnFromEntry` | include/process.cpp:102-117 | what returning does; under the exact condition a step that keeps all invariants |
| `Processes.Kernel.FreeProcessResources` | include/process.cpp:417-437 | files, stack and address space go back, the slot is unused |
| `Processes.Kernel.Wait` | include/process.cpp:439-483 | one round reaps the first child that has ended, or says there is none, or sleeps; in the kernel context the children are the processes without a parent, and the exact condition for reaping one is `MayReapOrphan`; the file table is untouched by reaping |
| `Processes.Kernel.AllocateProcess` | include/process.cpp:170-213 | the first unused slot with pid, stack and space, or whatever was taken is given back |
| `Processes.Kernel.DuplicateFiles` | include/process.cpp:655-658 | the child holds every open file of the parent, counted |
| `Processes.Kernel.Fork` | include/process.cpp:636-673 | a runnable child in the first unused slot with the files of its parent, or -1 with nothing changed but, if there was a slot, a pid used up; which of the two is exact |
| `Processes.Kernel.OpenConsoleFiles` | include/process.cpp:90-98 | three descriptors over the first two free files, or fewer than two files were free |
| `Processes.Kernel.CreateProcess` | include/process.cpp:226-259 | a runnable thread without parent on the console in the first unused slot, or nothing changed but a pid used up; which of the two is exact |
| `Processes.Kernel.CreateInitProcess` | include/process.cpp:266-270 | the process that inherits orphans from then on; a second call replaces it, which keeps the invariant exactly if no dead init has children |

## Left out

* Store errors inside the inode layer: the file system assumes that acquiring and writing back a block succeed.  After
  a failed write-back the cached bytes are already changed (include/inode.cpp:242-244).
* Mounting a disk that `format` has not made, a second `initialize` of cache, file system or process table, and crash
  consistency.
* `BlockRef` move assignment; the move constructor, write-back and reset are modelled.
* Bit operations on bytes and on 64-bit entries are arithmetic on numbers; entries are kept as their fields.
* What mapping and unmapping do under a large page, TLB flushing, CR3 loading; rights and isolation are stated for the
  lower half, the kernel half being shared.  Frames are reached by their address, as if the direct map reached all.
* Pages of the kernel's `.user` section that `map_user_space` maps into user spaces (include/usermode.cpp:19-35): the
  life of an address space is stated for pages that came from the pool.  Copies drop the bits above the address field,
  NoExecute among them, as the code does.
* 64-bit wrap-around in `allocate` and `morecore`: requests are bounded so that rounding and the new break do not
  wrap; in `sbrk` it is modelled.  Freeing what is not allocated.
* Registers, stacks and context switches: a switch is a change of the current process; `fork_user` and `fork_kernel`
  differ only in whether user pages are copied.  What the heap and the memory manager hand out enters the process
  model as a parameter.
* `wait` is modelled one round at a time, since it gives up the processor in between.  In the kernel's own context
  `wait` spins while children are alive and `exit` halts; runs are those in which neither is called there.
* The process table, the file table and the buffers' bytes are sequence fields that the methods reassign, so that
  pointers into them are indices; a wrap-around of `next_pid` after 2^31 processes.
* Reading the console, the drivers, interrupts as such, formatting and printing.
- Format.Format: for a device of exactly `total_blocks` blocks, the capacity that `initialize` is called with.
- NewDisk.MakeFileSystem: for the same devices.
- Path.WalkFromRoot: for disks on which every directory entry names an inode; `LinkKeepsNumbers` says when linking keeps that.
- Path.ResolvePath: for the same disks.
- Path.ResolveParent: for the same disks.
- VirtualMemory.VirtualMemoryManager.GetOrCreateTable: for a kernel slot that is present or that no space has, since a second table for one place is no tree any more (`SecondKernelTable`); for entries that are no large page.
- VirtualMemory.VirtualMemoryManager.FindTable: the same.
- VirtualMemory.VirtualMemoryManager.MapPage: the same.
- VirtualMemory.VirtualMemoryManager.MapPageIn: the same.
- VirtualMemory.VirtualMemoryManager.UnmapPage: for addresses that no large page covers.
- FileIo.FileRead: not for the console.
- Processes.Kernel.FileClose: the reference to the inode table that goes with the last descriptor is dropped in `FileRefs.FileClose`.
- Processes.Kernel.CloseAllFiles: the same in `FileRefs.CloseAllFiles`.
- Processes.Kernel.Exit: the same in `FileRefs.Exit`.
- Processes.Kernel.FreeProcessResources: giving back the stack and the address space are removals from two maps; what they do to memory is `Heap.Free` and `Teardown.DestroyAddressSpace`.
- Processes.Kernel.AllocateProcess: what the heap and `create_address_space` answer is a parameter.
- Processes.Kernel.CreateProcess: the same.
- Processes.Kernel.Fork: whether the user pages could be copied is a parameter; the copy itself is `AddressSpaces.CopyUserPages`.
