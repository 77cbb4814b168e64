# Proofs about a small ARM kernel and its file system

This project models the parts of the system that keep real state and proves what they keep. Each module follows
one source file or a few that belong together, in its own form: classes whose methods update arrays and fields in
place, loops with invariants, and the specification functions and lemmas they are proved against.

| file | module | source |
|---|---|---|
| `Bytes.dfy` | `Bytes` | blocks of 4096 bytes as bytes, little-endian words and bits |
| `Rings.dfy` | `Rings` | circular doubly linked lists threaded through arrays |
| `Buffer.dfy` | `BufferCaches` | fs/buffer.c |
| `Bmap.dfy` | `Bitmaps` | fs/bmap.c |
| `BlockTree.dfy`, `Inode.dfy` | `BlockTrees`, `Inodes` | fs/inode.c, the block map and truncation |
| `Itable.dfy` | `InodeTable` | fs/inode.c, the inode table |
| `Frw.dfy` | `FileRw` | fs/frw.c |
| `Dir.dfy`, `Namei.dfy` | `Directories`, `Namespaces` | fs/namei.c |
| `Icache.dfy` | `InodeCaches` | fs/inode.c, the inode cache |
| `Super.dfy` | `RootFs` | fs/super.c |
| `Runs.dfy` | `Runs` | several system calls in a row |
| `Buddy.dfy` | `Buddies` | kernel/kmalloc.c |
| `Mmu.dfy`, `Rebuild.dfy`, `Spaces.dfy` | `PageTables`, `KernelMaps`, `AddressSpaces` | kernel/page/fault.c, kernel/task.c, lib/klib/mmu.c |
| `Physrw.dfy` | `PhysicalCopy` | kernel/ipc/kmail.c, `physrw` |
| `Sched.dfy` | `Schedulers` | kernel/sched.c |
| `Strings.dfy` | `Strings` | lib/string.c, numbers |

`dafny verify dfyconfig.toml` checks everything.

## How the layers fit

* The file system is one stack on one object graph. The buffer cache refines a plain map from (device, block) to
  bytes, its `view`: a buffer if one is hashed and valid, else the disk. Every operation of the cache keeps the view
  except the three ways a holder changes a block. `SuperBlock` keeps both bitmaps pinned on that cache. `Volume` says
  that all non-zero pointers of all inodes, direct, indirect and double-indirect, are distinct, in the data zone, and
  that exactly these blocks are marked. `FileRw` then talks about bytes of files, `Directories` about files that are
  maps of names, and `Namespace` ties link counts, inode numbers and entries together.
* `Namespace.Valid` also covers the inode table. For every inode in use it knows the current record, the one the copy
  in memory has if there is one, and whether the table is behind. A record says the link count, the zones and the
  directory size that the rest of the state says, and the table holds every record that is not behind. A copy is
  `Linked` when it has the current record and is dirty whenever the table is behind; `Iget` returns such a copy. The
  operations on names, `WriteFile` and `ReadFile` say that all other copies stay current (`KnownKept`) and that all
  other files keep their bytes and blocks (`OthersSame`, `RestSame`), so calls compose into runs. An open with O_TRUNC
  may hand out a copy that is `Current` but not `Linked`; `CloseEmptied` says what its iput leaves. `RootFs` shows
  that formatting a disk establishes all of it, and `Remount` closes the circle: what was put and synchronised is what
  the next mount finds.
* `Runs` puts system calls together: unlink of an open file and its closes, write and read back by name, in memory and
  over a restart, O_TRUNC and close, down to a file that has its freed block in the table on a new disk, and the first
  file of a new disk.
* Where contracts are stated with specification functions, lemmas next to those functions say in raw words, bytes and
  bits what they are: `PtrWords`, `ByteWords`, `ZoneBitAt`, `InodeBitAt`, `RecordWords`, `RecordBytes`, `SuperWords`,
  `TabledWords`, `GroupWord`, `NumberParts` and their like.
* `InodeCaches` is the slots of the inode cache over one `Namespace`: one slot for an inode, and in the table what is in
  no slot. `CopyOf` connects it with the calls that take the copy of an inode as a parameter.
* The page allocator is proved for the runs the kernel has, which only allocate. The page tables sit on top of it:
  table and data pages come from `FindFreePage`, and that they were free is what makes the table updates independent.
  Every operation says what it leaves alone, so a run of several address spaces can be followed (`AddressSpaces`): the
  kernel's, built by rebuild_mmu and extended by the idle task's stack, and those made from it.
* The walk is that of the ARM920T Technical Reference Manual (ARM DDI 0151), section 3.3, "Address translation",
  with domains and access permissions.
* The scheduler is a state machine over timer interrupts, sleeping, waking and yielding; fairness and the waiting
  bound are about arbitrary event sequences. The methods are proved equal to the steps of that machine.

## What the code does otherwise than it says

* `file_wr` with O_APPEND takes the block from the file position and the offset from the end of the file.
  `InStepIff` says exactly when this is harmless, `AppendMisplaces` gives a case where it is not.
* `find_first_zero` carries the starting bit offset into the next byte when the first one is full
  (`FindsLeastIff`, `MissesClearBit`). `new_inode` always starts at bit 0 and is not affected.
* `strtol` cannot report a bad character: `isnum` returns an unsigned char, so its -1 is 255 and is used as a digit
  (`HornerOfTextIff`, `NoRoundTripAbove16`).
* `get_order` returns 9 for sizes above 1 MB up to 2 MB, an order for which there is no list.
* A directory name of exactly 60 characters has its terminator written into the next record, or behind the buffer
  (`StoresStayIff`, `StoresSpill`).
* `open` with O_TRUNC frees the blocks of a file but does not raise i_dirt: unless the inode was dirty already or the
  file is written before it is closed, its record in the table keeps naming the freed blocks (`CloseEmptied`,
  `FormatAndTruncate`).
* i_nlinks is 16 bits wide and wraps without a check (`LinkCountsIff`, `LinkCountWraps`).
* The entries a new page table is filled with are meant to fault, but domain 1 is a manager at boot, which is not
  checked against permissions: the rest of a fresh 4 MB group leads to page 0 (`MapUpdateIff`, `BootMapUpdate`).
  The same happens to a process in the hole of the vector table's group (`SharedExactly`).
* `share_kernel_space` stops the system on a perfectly good source directory that has a section before a coarse table
  in one aligned group; `Orderly` is the exact condition. The kernel's own directory meets it.
* `physrw` counts the chunk of a page that is not there: it can return `size` without having copied the last chunk
  (`CountedIff`, `CountsWhatIsMissing`).
* init_page_map gives the order 8 to every second head of an order-8 block only; nothing that runs depends on it.

## Model

| member | source | states |
|---|---|---|
| `BufferCaches.BufferCache.constructor` | fs/buffer.c:133-160 | init_buffer leaves every buffer on the free ring in order, nothing cached or pinned, and every block showing what the disk holds |
| `BufferCaches.BufferCache.SearchRing` | fs/buffer.c:84-93 | the two-ended walk over one hash ring terminates and finds the slot with the key iff one is on the ring |
| `BufferCaches.BufferCache.FindBuffer` | fs/buffer.c:74-95 | a buffer is returned iff one with that device and block is hashed, and it is that one |
| `BufferCaches.XorBit` | fs/buffer.c:22 | the row of a block is taken from dev_no ^ blk_no, bit by bit |
| `BufferCaches.BufferCache.PopFree` | fs/buffer.c:54-64 | the first buffer leaves the free ring, and the pointers describe the remaining ring |
| `BufferCaches.BufferCache.AddHash` | fs/buffer.c:28-47 | the buffer joins the ring of its own row and is found under its key; contents and pins stay |
| `BufferCaches.BufferCache.FreeBuffer` | fs/buffer.c:97-131 | an unpinned buffer that is clean or unread moves from its row to the tail of the free ring; what callers see does not change |
| `BufferCaches.BufferCache.GetBuffer` | fs/buffer.c:49-72 | with one unpinned buffer the retry loop ends with a fresh buffer hashed under the key; no block's contents change although others may be evicted; when the free ring has a buffer it is the first of it, and no other buffer and nothing on the disk changes |
| `BufferCaches.BufferCache.GetBlk` | fs/buffer.c:173-192 | one more pin on the block, at one slot per block; the contents of every block stay; a cached block stays in its slot, an uncached one takes the first free slot, and then no other buffer and nothing on the disk changes |
| `BufferCaches.BufferCache.Bread` | fs/buffer.c:196-207 | the same, and the buffer holds the block's logical content |
| `BufferCaches.BufferCache.Brelse` | fs/buffer.c:162-170 | one pin less; no content changes; the buffer is freed exactly when that was its last pin and it is clean or unread; nothing is written and no other buffer changes |
| `BufferCaches.BufferCache.Pointed` | fs/buffer.c:173-207 | a live pointer to a block leads to a buffer of that block, whose bytes are the block's logical content once read |
| `BufferCaches.BufferCache.SyncSlot` | fs/buffer.c:252-262 | one stop of the round robin writes the buffer back if dirty and frees it iff it was hashed and unpinned; no other buffer changes |
| `BufferCaches.BufferCache.SyncDevBlks` | fs/buffer.c:225-238 | afterwards the disk equals the logical content of every block of the device and is unchanged elsewhere; contents and pins stay; exactly the dirty buffers of the device are clean, or free if unpinned, and every other buffer is as it was |
| `BufferCaches.BufferCache.SyncBlks` | fs/buffer.c:243-265 | returns the number of buffers it freed, at most one more than asked for, and none only if nothing can be freed; exactly the buffers from the one after the round robin position to the new position have had their stop, which is a full round unless the last stop freed one more than asked for; writes nothing but logical contents; a full round leaves the disk equal to the logical content everywhere and exactly the unpinned buffers free |
| `BufferCaches.AllIdle` | fs/buffer.c:250-263 | when every slot is idle the disk holds every block's content and what is not pinned is free |
| `BufferCaches.WriteOne` | fs/buffer.c:254-257 | writing a dirty buffer back and marking it clean changes no logical content |
| `BufferCaches.DropOne` | fs/buffer.c:97-131 | dropping an unpinned buffer that is clean or unread changes no logical content |
| `BufferCaches.HookOne` | fs/buffer.c:36-45 | moving a slot onto the ring of its row keeps every slot on exactly one ring |
| `BufferCaches.UnhookOne` | fs/buffer.c:106-130 | taking a slot off its row keeps every other slot on exactly one ring |
| `BufferCaches.TurnUnique` | fs/buffer.c:250-252 | the round robin reaches each slot at exactly one stop of a round |
| `Rings.AppendChain` | kernel/kmalloc.c:114-120 | splicing a chain in before the head makes one ring of the old ring followed by the chain (also fs/buffer.c:40-43, :118-121) |
| `Rings.RemoveChain` | kernel/kmalloc.c:88-93 | bypassing a segment leaves exactly the rest as a ring (also fs/buffer.c:109-110) |
| `Bytes.StoredBytes` | fs/inode.c:38-52 | little-endian: a stored word's byte k is bits 8k to 8k + 7, and the other bytes of the block stay |
| `Bytes.BitInByte` | fs/bmap.c:7-25 | bit 8 i + k of a bitmap block is the bit of weight 2^k in byte i |
| `Bitmaps.FindFirstZero` | fs/bmap.c:27-39 | the least clear bit among those the search looks at, -1 iff all of them are set |
| `Bitmaps.FindsLeastIff` | fs/bmap.c:29-37 | the result is the least clear bit from bitno on exactly when no clear bit hides behind the bit offset that is carried into the next byte (or the start is byte aligned) |
| `Bitmaps.MissesClearBit` | fs/bmap.c:32 | byte 0 full, bit 8 clear, start at bit 1: the search answers 9 |
| `Bitmaps.ReadMap` | fs/super.c:26-35 | the n map blocks are read, held at n pins, and nothing else changes |
| `Bitmaps.Mount` | fs/super.c:21-36 | both bitmaps are held and the super block's invariant holds; no content changes |
| `Bitmaps.SuperBlock.PutBit` | fs/bmap.c:7-25 | only the bit of that zone changes; the old bit is reported |
| `Bitmaps.SuperBlock.NewBlock` | fs/bmap.c:67-101 | 0 exactly when the search has nothing eligible left, and then nothing changes; otherwise the first eligible block on the way round from sb_pos, of the data zone, zero-filled, whose bit was clear, and only that bit and that block changed |
| `Bitmaps.SuperBlock.ExhaustedIff` | fs/bmap.c:67-86 | nothing is eligible exactly when every clear bit inside the volume is in the map block of sb_pos, before it, or behind the reused bit offset |
| `Bitmaps.SuperBlock.ZoneBitAt` | fs/bmap.c:72-91 | the bit of a zone in raw bytes: which bitmap block behind the inode bitmap, which byte, which weight |
| `Bitmaps.SuperBlock.InodeBitAt` | fs/inode.c:111-134 | the bit of an inode number in raw bytes: which block from block 2 on, which byte, which weight |
| `Bitmaps.SuperBlock.FreeBlock` | fs/bmap.c:46-65 | exactly the block's bit is cleared, what the cache had of the block is discarded and no other block's content changes; the bit was set, so the crash of a double free is not reached |
| `Bitmaps.SuperBlock.FindInode` | fs/bmap.c:113-118 | the least inode number whose bit is clear, -1 iff there is none |
| `Bitmaps.SuperBlock.TestInode` | fs/inode.c:111-134 | says whether the number's bit is set |
| `Bitmaps.SuperBlock.TakeInode` | fs/bmap.c:109-121 | the least free number is marked, all other bits and all other blocks stay |
| `BlockTrees.PlaceOfInjective` | fs/inode.c:192-248 | different blocks of files are kept in different places of the block map |
| `BlockTrees.PtrWords` | fs/inode.c:181-258 | in raw words: block n of a file is zone n, then word n - 7 of the block zone 7 names, then word (n - 1031) % 1024 of the block named by word (n - 1031) / 1024 of the block zone 8 names, and 0 where a pointer on the way is 0 |
| `BlockTrees.ByteWords` | fs/frw.c:27-46 | in raw words: byte k of a file is byte k % 4096 of the block those words name, 0 in a hole and beyond the block map |
| `BlockTrees.Graft` | fs/inode.c:193-257 | storing a fresh zero block in an empty place changes that pointer only, and all non-zero pointers stay pairwise distinct and in the data zone |
| `BlockTrees.GraftBytes` | fs/bmap.c:97-98 | no byte of any file changes when a hole becomes a zero block or a pointer block is added |
| `BlockTrees.StoreBytes` | fs/frw.c:78-94 | storing into the data block of one file block changes those bytes of that file and no other byte of any file |
| `BlockTrees.Prune` | fs/inode.c:311-330 | with one inode's zones cleared and the other files' blocks untouched the rest is still a forest, the file reads as zeros and all other files as before |
| `BlockTrees.SpreadAll` | fs/inode.c:319-327 | the blocks its nine zones lead to, at any depth, are exactly the blocks owned by the file |
| `Inodes.Volume.Claim` | fs/bmap.c:67-101 | a new block is one that no file points to |
| `Inodes.Volume.EachBlockOnce` | fs/bmap.c:46-101 | between operations the bitmap marks exactly the blocks of the data zone that some place of some file points to, and no two places point to the same block |
| `Inodes.Volume.GrowZone` | fs/inode.c:193-199 | an empty zone gets a fresh block; everything mapped before stays mapped, no byte of any file changes |
| `Inodes.Volume.Entry` | fs/inode.c:210-224 | one stage of the walk: only the entry asked for may get a block, failure leaves it 0 with the volume full |
| `Inodes.Volume.BmapOrCreate` | fs/inode.c:181-258 | the number kept in the block's place; only that place and the pointer blocks above it may have been allocated, 0 only when it was missing and the volume is full, nothing is leaked when allocation fails half-way, no byte of any file changes |
| `Inodes.Volume.Bmap` | fs/inode.c:260-264 | in raw words: the entry of the block asked for, 0 where a pointer on the way is 0, and the volume does not change |
| `Inodes.Volume.CreateBlock` | fs/inode.c:266-273 | maps only the block asked for, whose entry in raw words is the result afterwards; a block that was mapped is returned without asking the allocator; `created` tells whether it was missing before |
| `Inodes.Volume.FreeOne` | fs/bmap.c:46-65 | freeing a block that is in use and not yet freed: one more block gone, none twice |
| `Inodes.Volume.FreeInd` | fs/inode.c:276-292 | exactly the pointer block and the blocks it names are freed, each once |
| `Inodes.Volume.FreeDind` | fs/inode.c:294-309 | exactly the blocks below the double-indirect block and itself are freed, each once |
| `Inodes.Volume.ClearIblks` | fs/inode.c:311-330 | for a regular file exactly its blocks are unmarked, its zones are empty, its size 0, every other file keeps its blocks and bytes; other kinds of inodes are left alone |
| `FileRw.FileRd` | fs/frw.c:18-50 | byte i delivered is byte pos + i of the file, for all bytes asked for; the rest of the buffer stays; the position moves past them; the volume stays |
| `FileRw.WriteLoop` | fs/frw.c:69-95 | short only when the volume is full and the block of the first byte not written was missing; byte i goes to its target, every other byte of every file stays, every mapped block stays where it is, and so does the block map of every other file; size and position grow with the bytes written |
| `FileRw.FileWr` | fs/frw.c:52-105 | short only when the volume is full and the block of the first byte not written was missing before; without O_APPEND byte i lands at pos + i and no other byte of any file changes, with it the bytes go to their targets and the last write to a target wins; no mapped block moves, no other file maps other blocks; i_size becomes max(old, end), both positions move together also on a short write |
| `FileRw.PlainWrite` | fs/frw.c:69-95 | when the two positions are in step the write is the byte-array update at pos |
| `FileRw.InStepIff` | fs/frw.c:70-78 | every byte lands at pos + i exactly when both positions are in the same block and the write stays inside that block or the file position is not before pos |
| `FileRw.TargetPlace` | fs/frw.c:70-90 | a byte keeps the offset of pos + i within a block, and its block is that of the file position which the rounds before have reached |
| `FileRw.LastToIs` | fs/frw.c:69-95 | the byte found at a position is the last of the write that has it as its target |
| `FileRw.WriteReadBack` | fs/frw.c:18-105 | without O_APPEND what was written at a position is read back there and no other byte changed |
| `FileRw.AppendMisplaces` | fs/frw.c:58-74 | O_APPEND on a freshly opened file of 5000 bytes stores the first byte at 904 |
| `InodeTable.FromWordsOfWords` | fs/inode.c:32-52 | the 64-byte record of an inode keeps all its fields |
| `InodeTable.RecordWords` | include/ecasey/fs.h:42-51 | which table block and which of its words hold which field of the record of an inode number |
| `InodeTable.PutInodeReadBack` | fs/inode.c:52 | writing one record of a table block leaves the 63 others |
| `InodeTable.ReadDevInode` | fs/inode.c:17-35 | an inode that is not valid gets the fields of its record, a valid one is left alone |
| `InodeTable.WriteDevInode` | fs/inode.c:37-57 | a dirty inode's record becomes its fields; every other record and block stays |
| `Directories.Strncmp` | lib/string.c:42-49 | zero exactly when the characters where the comparison stops agree |
| `Directories.ComparesNames` | fs/namei.c:65-68 | the length trick of find_entry compares whole names: equal exactly when the record's name is the (possibly cut) component |
| `Directories.NameSought` | fs/namei.c:36-37 | the name a component stands for: its characters, or the first 59 of more than 60 |
| `Directories.RecordBytes` | include/ecasey/fs.h:109-112 | which bytes of a directory block are number and name of record j, and when it is vacant |
| `Directories.ListingIff` | fs/namei.c:62-72 | a directory lists a name with a number exactly when one of its records in use has both |
| `Directories.StoresStayIff` | fs/namei.c:86-109 | storing a name in record j of a buffer leaves every byte outside that record alone, in the block and behind it, exactly when the component does not have 60 characters or the byte that follows the record was 0 already |
| `Directories.StoresSpill` | fs/namei.c:108-109 | a name of 60 letters in front of a record of inode 7 makes that record vacant |
| `Directories.CopyName` | fs/namei.c:108-109 | the n characters and a NUL stand at the place, and every other byte is as before |
| `Directories.FindSlot` | fs/namei.c:62-72 | the first record of a block with the name, if there is one |
| `Directories.FindEntry` | fs/namei.c:23-76 | a name is found iff the directory lists it, at its record and with its inode number; nothing changes |
| `Directories.FindVacant` | fs/namei.c:104-114 | the first vacant record of the block, if there is one |
| `Directories.AddEntry` | fs/namei.c:79-118 | the listing gains exactly the new name with its inode number in the first vacant record, all other files read as before; the directory grows by one block exactly when no record was to spare, and fails only when one was needed and the volume is full, with the listing as it was |
| `Directories.NamesCounted` | fs/namei.c:86-118 | a directory whose first n records are all in use has at least n names, so the search for a vacant one succeeds when there are fewer |
| `Directories.NameAdded` | fs/namei.c:105-112 | a vacant record that gets a new name adds exactly that name to the map |
| `Directories.NameRemoved` | fs/namei.c:656-658 | erasing the record of a name removes exactly that name from the map |
| `Directories.EraseEntry` | fs/namei.c:656-659 | exactly that name leaves the listing, all other files read as before |
| `Namespaces.Namespace.NewInode` | fs/bmap.c:104-136 | the least free number with one link and one reference, or none when all are in use |
| `Namespaces.Namespace.Iget` | fs/inode.c:119-166 | no inode exactly when its bit is clear; otherwise a copy with one more reference that says what names, blocks and sizes say, be it the one in memory or a fresh one read from the table |
| `Namespaces.Namespace.ReadInode` | fs/inode.c:157-163 | an inode that is in use and not in memory comes back from its record with the link count, zones and size of the rest of the state |
| `Namespaces.Namespace.WhatHolds` | fs/inode.c:17-57 | what the invariant says of a number between operations: its bit is set exactly when it is in use, its count is the number of its names, its record has its count and zones, and the inode table has the record unless it is behind |
| `Namespaces.Namespace.FreshRecordIs` | fs/bmap.c:124-132 | owner, group, mark, one link and nothing else in a new inode's record |
| `Namespaces.FreshZonesAre` | fs/namei.c:693-694 | a device file has its device number in zone 0; all other zones of a new inode are 0 |
| `Namespaces.Namespace.FreeInode` | fs/bmap.c:138-162 | the number of an inode without links is unmarked, its record is forgotten, the copy is wiped; its bit was set |
| `Namespaces.Namespace.Iput` | fs/inode.c:92-109 | the inode goes away, blocks and number, exactly when its last reference goes and it has no links; otherwise only the reference goes, no byte and no block of any file changes, and the last one writes a dirty inode, so that its record on disk is the copy; it may be a copy that O_TRUNC left behind |
| `Namespaces.Namespace.DoHlink` | fs/namei.c:569-619 | each error code exactly when it applies: EDIR for a directory, EPDUP for a name that is there, ENOSRC only when the volume is full and the directory had no record to spare; on success the directory gains one entry for the inode and its i_nlinks, which is the number of entries, grows by one, otherwise no name and no count changes; every path gives back its references, leaves every inode in memory or in the table as the names say, and leaves every file but the directory its bytes and blocks |
| `Namespaces.EntryAdded` | fs/namei.c:609-611 | only this name of this directory is new; every other name and directory is as before |
| `Namespaces.LinkAdded` | fs/namei.c:614 | a link more raises the 16-bit count of that inode by one, 65535 to 0, and no other |
| `Namespaces.Namespace.DoUnhlink` | fs/namei.c:622-666 | whatever iget finds in memory: on success the entry is gone and the count one less, and the inode is gone exactly when that was the last link and nobody holds it; otherwise no name and no count changes; every copy in memory stays current, also that of the inode that lost its name, and every file but the directory and the inode that went keeps its bytes and blocks |
| `Namespaces.Namespace.UnlinkedMeans` | fs/namei.c:640-665 | each error code exactly when it applies, and then nothing changes; on success only that name is gone, and the inode exactly when it was the last link and nobody holds it |
| `Namespaces.LinkTaken` | fs/namei.c:660-664 | a link less lowers the count of that inode by one, or takes it out of use exactly with its last link when it is idle |
| `Namespaces.RecordedStep` | fs/inode.c:37-57 | one inode changes: every other inode's record is still in the table or known to be behind |
| `Namespaces.RecordedWritten` | fs/inode.c:37-57 | writing one record brings it up to date and no other one out of date |
| `Namespaces.Namespace.DoMknod` | fs/namei.c:669-710 | EPDUP exactly for a name that is there, ENOSRC only when every inode number was in use or the volume is full and the directory had no record to spare; on success a new inode with one link under the new name, whose record, with its mode and device number, is in the table for the next iget; otherwise no name and no count changes; every other copy in memory stays current and every file but the directory keeps its bytes and blocks |
| `Namespaces.Namespace.OpenNamei` | fs/namei.c:491-565 | for every combination of flags: a missing file is created with one link and one reference, or not, with ENOSRC only when every inode number was in use or the volume is full and the directory had no record to spare, and then no name and no count changes; an existing one is refused, or handed out as its record has it, or emptied, which frees its blocks; the table still has what it had; every other copy in memory stays current and every other file keeps its bytes and blocks |
| `Namespaces.Namespace.OpenedMeans` | fs/namei.c:518-564 | each outcome exactly when it applies: EDIR for a directory opened for writing, refusal of an existing file under O_EXCL, the existing inode with its record, emptied if regular and asked for, or a new regular inode under exactly that name |
| `Namespaces.Namespace.Truncate` | fs/inode.c:311-330 | emptying a file that stays: its blocks are free, every other file keeps its blocks and bytes, and the copy is still one that iput writes back exactly when it was dirty or nothing changed; else the table keeps the old record |
| `Namespaces.Namespace.CloseEmptied` | fs/namei.c:561-562 | after an open with O_TRUNC and the last iput the table has the record of the empty file exactly when the copy was dirty or the file was empty; otherwise it has the old record, whose blocks belong to no file |
| `Namespaces.Namespace.WriteFile` | fs/frw.c:52-105 | a write between operations on names: short only when the volume is full and the block of the first byte not written was missing; every listing, link count and other inode stays as it was, and the copy stays current; after O_TRUNC the first write makes it one that iput writes back |
| `Namespaces.Namespace.ReadFile` | fs/frw.c:18-50 | a read between operations on names delivers the file's bytes and changes nothing |
| `Runs.UnlinkHeldOpen` | fs/namei.c:622-666 | the last name of a file that is open goes: the number stays marked and the file reads as before |
| `Runs.PutUnlinked` | fs/inode.c:92-109 | one iput of a file without names: with the last reference its blocks go and its imap bit is cleared, before that nothing changes |
| `Runs.UnlinkThenClose` | fs/namei.c:622-666 | unlink of an open file and the close of each of its references: the imap bit is set and the file reads as before as long as one reference is left, and the bit is clear and the blocks are free with the last; no other file changes |
| `Runs.WriteClose` | fs/frw.c:52-105 | after a write and the last iput the bytes are in the file, no other byte of any file changed, and the table has the record |
| `Runs.OpenRead` | fs/namei.c:491-565 | open by name and read deliver the file's bytes, whatever of it was in memory, and leave every file, name and count as it is |
| `Runs.WriteThenRead` | fs/frw.c:18-105 | write, close, open by name, read: the bytes come back, be the inode still in memory or read again from the table |
| `Runs.WriteThenRemount` | fs/super.c:185-194 | write, close, sync_blks, mount through another cache, open by name, read: the bytes come back and all names and counts are the same; short only for a block that was missing |
| `Runs.FirstFile` | fs/main.c:123 | on a freshly formatted volume an open with O_CREAT of any name but . and .. makes an empty regular file, open once, which is the only other name of the root |
| `Runs.TruncateThenClose` | fs/namei.c:491-565 | open with O_TRUNC and close of a file nobody else has open: the exact condition for the table to have the empty file's record, and otherwise the old record with its blocks free |
| `Runs.TruncateOneByte` | fs/namei.c:561-562 | a file of one byte that is opened with O_TRUNC and closed keeps its record in the table, with a block whose zone bit is clear |
| `Runs.FormatAndTruncate` | fs/namei.c:561-562 | that happens on a freshly formatted disk, with a block from 4114 on, and all invariants hold afterwards |
| `InodeCaches.InodeCache.constructor` | fs/inode.c:170-174 | cleared slots are a good inode cache when the table is behind for no inode |
| `InodeCaches.InodeCache.SyncInodes` | fs/inode.c:59-69 | exactly the slots that nobody holds and that are dirty are written back and cleared; held slots stay, no file changes |
| `InodeCaches.InodeCache.GetEmpty` | fs/inode.c:71-85 | ends whenever some slot is held by nobody: it takes the first slot that is clean and held by nobody and touches no other, or, if there is none, writes back and clears exactly the slots that nobody holds and takes the first; what was in the slots is in the table, and every held slot stays |
| `InodeCaches.InodeCache.CopyOf` | fs/inode.c:136-141 | what the search over the slots finds, or does not find, is what the calls that take the copy of an inode ask for |
| `InodeCaches.InodeCache.Iget` | fs/inode.c:119-166 | no inode exactly when the number is not in use; otherwise one more reference to its only slot, or a slot that nobody held; at most one slot has any inode, every slot has the current copy, and what is in none is in the table |
| `InodeCaches.InodeCache.Iput` | fs/inode.c:92-109 | the slot is cleared exactly when the last reference to the last link goes; the cache stays one where every inode is in one slot at most |
| `Namespaces.LinkCountsIff` | fs/namei.c:614 | one more entry and one more link keep count and entries equal exactly when the 16-bit count was not at its maximum |
| `Namespaces.LinkCountWraps` | fs/namei.c:614 | an inode with 65535 names gets one more: its count is 0 |
| `Namespaces.NamedLinked` | fs/namei.c:651-655 | what a name stands for has links: the repair branch of do_unhlink is never taken |
| `Namespaces.CountedAdd` | fs/namei.c:609-614 | a new entry raises the number of entries naming that inode by one and no other |
| `Namespaces.CountedRemove` | fs/namei.c:656-660 | an erased entry lowers the number of entries naming that inode by one and no other |
| `RootFs.FormattedLayout` | fs/super.c:148-158 | the geometry covers the volume with its bitmaps and has a table record for every inode bit |
| `RootFs.SuperReadBack` | fs/super.c:51-163 | the super block keeps all its fields on disk |
| `RootFs.FormattedWords` | fs/super.c:148-165 | word for word what a formatted disk has in block 1 |
| `RootFs.SuperWords` | fs/super.c:48-53 | which words of block 1 are zones, bitmap sizes, first data zone, magic number and search position |
| `RootFs.Format` | fs/super.c:142-180 | block 1 holds the super block, both bitmaps are zero and held |
| `RootFs.CreatRooti` | fs/super.c:108-140 | from cleared bitmaps: inode 0 is a directory with two links and the mode of a directory, whose only entries are . and .., and all invariants of the stack hold |
| `RootFs.FormatRootfs` | fs/super.c:142-183 | the invariants that every other operation starts from hold of a freshly formatted disk |
| `RootFs.LoadRootfs` | fs/super.c:185-194 | a disk whose block 1 has 0x05201314 in word 7 is mounted as it says without changing it, any other is formatted first |
| `RootFs.Carry` | fs/super.c:16-48 | another mount of a volume with the same contents has the same files, names, counts and records, and all invariants |
| `RootFs.Remount` | fs/super.c:185-194 | when all inodes have been put and sync_blks has gone round, mounting the disk through another cache gives the same bytes of all files, the same listings and the same counts, and every inode can be fetched from its record |
| `Buddies.BuddyLists.constructor` | kernel/kmalloc.c:205-237 | all pages free: each whole group of 512 pages as two order-8 blocks, the rest as single pages, every list holding its blocks in order of address and being a ring of whole aligned blocks |
| `Buddies.BuddyLists.FirstList` | kernel/kmalloc.c:253-263 | the first non-empty list of the order or above |
| `Buddies.BuddyLists.Take` | kernel/kmalloc.c:257-260 | the first block leaves its list whole, all lists stay rings of whole free blocks |
| `Buddies.BuddyLists.CutOne` | kernel/kmalloc.c:266-272 | the lower half goes to the next lower list, the upper half stays in hand, both aligned to their size |
| `Buddies.BuddyLists.GetPagesFromList` | kernel/kmalloc.c:248-276 | NULL exactly when no list of the order or above has a block; otherwise the first block of the first such list is cut, its upper end is handed out, the lower halves are in the lists between, and no other list changes; the 2^order pages were free and nothing else changes hands |
| `Buddies.BuddyLists.AllocPages` | kernel/kmalloc.c:317-328 | the same, and exactly the block's pages are marked dirty |
| `Buddies.BuddyLists.GetFreePages` | kernel/kmalloc.c:338-347 | the address of the block, aligned to its size in bytes |
| `Buddies.BuddyLists.FindFreePage` | kernel/kmalloc.c:354-357 | a page nobody held, 0 exactly when none is free |
| `Buddies.BuddyLists.FindFreePageDir` | kernel/kmalloc.c:359-366 | 16 KB aligned memory, or 0 exactly when no block of four pages is free, on the first try: the retry loop never runs |
| `Buddies.NothingLarger` | kernel/kmalloc.c:253-263 | the lists from an order on are empty exactly when every free page is in a smaller block |
| `Buddies.GetOrder` | kernel/kmalloc.c:369-377 | the least order whose block holds the size; -1 for 0 and above 2 MB |
| `Buddies.PaintTiled` | kernel/kmalloc.c:266-274 | a block that changes hands keeps the pages tiled by aligned blocks |
| `Buddies.CutTiled` | kernel/kmalloc.c:266-272 | cutting a block keeps the pages tiled by aligned blocks |
| `Buddies.AddressAligned` | kernel/kmalloc.c:216 | a block aligned among the pages is aligned in memory |
| `Buddies.BlocksDisjoint` | kernel/kmalloc.c:248-276 | two blocks of a reachable state are one or have no page in common |
| `Buddies.Conservation` | kernel/kmalloc.c:248-276 | an allocation takes exactly its own pages from the free ones: free and allocated add up to all pages |
| `Buddies.NeverTwice` | kernel/kmalloc.c:248-276 | over any run no two blocks handed out have a page in common |
| `Buddies.AllAccounted` | kernel/kmalloc.c:205-276 | over any run from the initial state, free pages and handed-out pages add up to all pages |
| `Schedulers.Scheduler.Choose` | kernel/sched.c:34-40 | stopping after NR_TASKS runnable tasks misses nobody: the highest-numbered runnable task with the most ticks, or slot 0 |
| `Schedulers.Scheduler.Recharge` | kernel/sched.c:42-47 | every task's ticks become its priority |
| `Schedulers.Scheduler.Schedule` | kernel/sched.c:30-52 | the highest-numbered task of the runnable ones with the most ticks; when these are 0 everybody's ticks become the priority and the idle task runs; otherwise no ticks change; nobody else's state or priority changes |
| `Schedulers.Scheduler.SleepTask` | kernel/sched.c:54-59 | a runnable task other than the idle one is TS_HANG then and does not run, whatever schedule chooses; nobody else stops; any other call does nothing |
| `Schedulers.Scheduler.WakeTask` | kernel/sched.c:61-66 | the task is runnable then with the priority it had, and schedule chooses if it was stopped; nobody else's state changes but the chosen one's; a running task's call does nothing |
| `Schedulers.Scheduler.DoTimer0` | kernel/sched.c:68-74 | the interrupt is counted and one tick is taken from the current task if it has one, then schedule chooses; while that task has ticks left nobody else's change |
| `Schedulers.BootFair` | kernel/kmain.c:97-107 | the state the kernel starts from keeps the fairness invariant |
| `Schedulers.StepFair` | kernel/sched.c:30-74 | every event keeps: whoever runs has a tick left, and charged plus remaining ticks add up to the priority |
| `Schedulers.RunFair` | kernel/sched.c:30-74 | the same over any run |
| `Schedulers.StopStops` | kernel/sched.c:54-59 | a stopped task has the state it was stopped with and does not run |
| `Schedulers.StoppedStays` | kernel/sched.c:54-66 | over any run without its wake-up a stopped task stays stopped and never gets the processor |
| `Schedulers.WokenStays` | kernel/sched.c:61-66 | over any run without another stop a task that was woken stays runnable |
| `Schedulers.ExactFairness` | kernel/sched.c:41-49 | whenever schedule recharges, each task then runnable, and the idle task, was charged exactly prio ticks since the last recharge |
| `Schedulers.StepPatience` | kernel/sched.c:30-74 | each timer interrupt that a runnable task waits through uses up its patience |
| `Schedulers.BoundedWait` | kernel/sched.c:30-74 | a task with a priority that stays runnable gets the processor within twice the sum of all priorities of timer interrupts |
| `Strings.IsNum` | lib/string.c:68-78 | the value of a hexadecimal digit in either case; a failed search comes back as 255 |
| `Strings.Itoa` | lib/string.c:108-129 | the number's text in any base from 2 to 255, NUL-terminated, and nothing beyond it touched |
| `Strings.TurnAround` | lib/string.c:123-127 | the in-place swaps reverse the first len characters |
| `Strings.Strtol` | lib/string.c:80-99 | Horner's rule in 32-bit two's complement over all characters up to the NUL, in any base |
| `Strings.HornerOfText` | lib/string.c:90-119 | Horner's rule undoes digit generation in bases 2 to 16 |
| `Strings.WrapOnce` | lib/string.c:88-91 | cutting down to 32 bits after each character is the same as once at the end |
| `Strings.RoundTrip` | lib/string.c:80-129 | strtol (itoa (n, b), b) is n as a long for bases 2 to 16: n below 2^31, n - 2^32 from there on |
| `Strings.NoRoundTripAbove16` | lib/string.c:70-77 | in every larger base 16 is read back as 255 |
| `Strings.HornerOfTextIff` | lib/string.c:80-119 | in any base from 2 to 255 Horner's rule undoes the digits exactly when each of them is below 16 |
| `Strings.Digits` | lib/string.c:190-197 | at most 32 characters go into the 36-byte buffer, the digits backwards |
| `Strings.NumberLength` | lib/string.c:183-222 | max(width, sign + prefix + max(digits, precision)) characters |
| `Strings.NumberParts` | lib/string.c:165-224 | what is printed, part by part: spaces, - or + or a space or nothing, the prefix, zeros, the digits of the magnitude, spaces, and which flag puts what where |
| `Strings.NoZerosInFront` | lib/string.c:108-119 | the digits do not start with 0 unless the number is 0 |
| `Strings.DigitShown` | lib/string.c:169-173 | the characters of the digits, in upper and in lower case |
| `Strings.Number` | lib/string.c:165-224 | appends sign, prefix, padding and digits as the flags say, nothing for a base it has no digits for |
| `PageTables.BootDomains` | lib/klib/mmu.c:93 | under the access control word set at boot domain 0 has no access, domain 1 is a manager, domain 2 a client |
| `PageTables.SmallPageWalk` | kernel/page/fault.c:160-164 | an address under a coarse table and a small page entry keeps its lowest 12 bits, when the domain is a manager or a client that the entry grants something |
| `PageTables.SectionWalk` | lib/klib/mmu.c:11-22 | an address under a section entry keeps its lowest 20 bits on the same condition |
| `PageTables.FillLeaf` | kernel/page/fault.c:70 | a fault entry faults for a client and leads a manager to page 0 |
| `PageTables.WalkFrame` | kernel/page/fault.c:128-173 | pages that are no part of a directory have no bearing on its walks |
| `PageTables.TabledWalk` | kernel/page/fault.c:151-158 | a new table page changes the walks of its own 4 MB group only |
| `PageTables.TabledWords` | kernel/page/fault.c:151-158 | in raw words: the four entries of the group name the four quarters of the page, which is full of fault entries; no other word changes |
| `PageTables.GroupWord` | kernel/page/fault.c:155-158 | in raw words: the directory entry of a user address in a group with a table |
| `PageTables.MappedWalk` | kernel/page/fault.c:160-164 | a second-level store changes the walk of its own page only |
| `PageTables.Machine.NewTable` | kernel/page/fault.c:139-158 | the group gets the four quarters of one page that nobody used, or none exactly when no page is free; the panic of a corrupt directory is not reached; no page in use outside the directory's own changes |
| `PageTables.Machine.MapVaddr2paddr` | kernel/page/fault.c:128-173 | it fails exactly when the group has no table and no page is free; otherwise the page's entry is the word for paddr with these permissions, the page's walk is paddr and every other walk is unchanged, but for the rest of a group that got its first table; the directory invariant is kept; of the pages in use only the directory and its tables change, what was held stays held, and the new table is a page nobody used |
| `PageTables.MapUpdateIff` | kernel/page/fault.c:138-165 | it is a plain map update exactly when the group had a table or domain 1 is no manager |
| `PageTables.BootMapUpdate` | kernel/page/fault.c:151-158 | under the boot access control word the rest of a new group translates to page 0 where it faulted before |
| `PageTables.Machine.DoPageFault` | kernel/page/fault.c:46-99 | the faulting page gets a cleared page nobody used and its entry is the word for that page, out of memory exactly when one page is missing, or two without a table, and the system stops for exactly the other combinations of fault and entry; the directory invariant is kept; no other page in use changes |
| `PageTables.OtherSpace` | kernel/page/fault.c:128-173 | what an operation on one directory does leaves any other directory on other pages with its invariant and all its walks |
| `PageTables.SpacesKept` | kernel/page/fault.c:46-173 | over any number of address spaces an operation on one keeps the invariant of all and the walks of the others |
| `PageTables.SpacesJoined` | kernel/task.c:151-158 | a new directory on free pages joins without changing the others |
| `PageTables.CopyReadBack` | kernel/task.c:92-94 | after the copy loop each entry is the source's where that names a page, else the old one |
| `PageTables.Machine.ShareEntry` | kernel/task.c:67-95 | one round of the sharing loop: out of memory only when no page is free and a coarse table is the first of its group |
| `PageTables.Machine.ShareKernelSpace` | kernel/task.c:55-97 | from a directory that may have user tables of its own: out of memory only when there are fewer free pages than groups with a coarse table, each of which takes one; the panic of a corrupt directory comes exactly when some aligned group of the shared range has a section before its first coarse table; otherwise the range is shared, the source's walks stay, the destination keeps the directory invariant on pages nobody used |
| `PageTables.SharedWalk` | kernel/task.c:55-97 | an address of the range that leads somewhere translates as it does for the source; the rest of a group with a table is fault entries; everything else faults |
| `PageTables.HalfUsed` | kernel/task.c:75-79 | a group without a table that is not empty had a section first |
| `KernelMaps.MapPageTbl` | lib/klib/mmu.c:25-32 | 256 entries in arithmetic progression and no other word changes |
| `KernelMaps.MapSegDir` | lib/klib/mmu.c:11-22 | section entries in arithmetic progression and no other word changes; a misaligned size does nothing |
| `KernelMaps.MapPageDir` | lib/klib/mmu.c:35-51 | directory and tables run through the range; no table overwrites another, the directory or anything else |
| `KernelMaps.RebuildMmu` | kernel/task.c:221-246 | every word of RAM afterwards: directory, tables, vector entry, and all else as before |
| `KernelMaps.KernelWindow` | kernel/task.c:224-230 | every address of the 64 MB kernel window walks to its place in RAM |
| `KernelMaps.PortWindow` | kernel/task.c:232-233 | every address of the port window walks to its peripheral address |
| `KernelMaps.VectorPage` | kernel/task.c:236-243 | the page at 0xFFFF0000 walks to the vector page |
| `KernelMaps.NothingElse` | kernel/task.c:223-233 | below the vector table's megabyte every other kernel address faults, whatever the directory holds for user addresses |
| `KernelMaps.KernelFit` | kernel/task.c:221-246 | the kernel's part of its directory is in order and in the system domain, so sharing it does not reach the panic |
| `KernelMaps.KernelTableCount` | kernel/task.c:67-95 | sharing the kernel's part takes 17 tables |
| `KernelMaps.ProcessSeesKernel` | kernel/task.c:158 | a process that shares the kernel space sees RAM window, ports and vector page as the kernel does |
| `KernelMaps.SharedExactly` | kernel/task.c:158 | below the vector table's megabyte sharing preserves every kernel translation exactly outside the hole of the vector table's group, or when domain 1 is no manager |
| `AddressSpaces.StartKernel` | kernel/task.c:221-246 | after rebuild_mmu the system runs with one space, the kernel's, which sees RAM, ports and the vector page |
| `AddressSpaces.InitTask` | kernel/task.c:123-124 | the idle task's stack is mapped in the kernel's own directory, out of memory exactly when the free pages do not suffice, and the kernel still sees all of it |
| `AddressSpaces.NewSpace` | kernel/task.c:149-158 | out of memory exactly when no block of four pages is free or fewer than 21 pages are; otherwise a process created then, or later, shares the kernel's part without reaching the panic, sees the kernel as the kernel does, and changes no walk of any existing space |
| `AddressSpaces.MapPage` | kernel/page/fault.c:128-173 | mapping a page of one space fails exactly when its group has no table and no page is free, maps it otherwise, and keeps the run going: all spaces well-formed on pages of their own, no walk of another space changed |
| `AddressSpaces.HandleFault` | kernel/page/fault.c:46-99 | so does a page fault of one space, with the exact conditions for running out of memory and for stopping the system |
| `AddressSpaces.RunningKept` | kernel/page/fault.c:128-173 | an operation on user addresses of one space keeps the kernel's tables and every space of the run |
| `AddressSpaces.JoinedRunning` | kernel/task.c:149-158 | a run goes on with a space that joined |
| `PhysicalCopy.AddressOf` | kernel/ipc/kmail.c:85-108 | page number and offset of byte k are those of the wrapped address |
| `PhysicalCopy.Physrw` | kernel/ipc/kmail.c:71-112 | byte by byte through the target's tables up to the first page that is missing; the chunk of a missing page is counted but not copied |
| `PhysicalCopy.RunIsPoked` | kernel/ipc/kmail.c:103-106 | a chunk within one page is the byte-by-byte copy |
| `PhysicalCopy.WrittenBytes` | kernel/ipc/kmail.c:106 | with distinct places each byte written is the buffer's and no other byte of memory changes |
| `PhysicalCopy.WriteThenRead` | kernel/ipc/kmail.c:71-112 | WRITE then READ gives the bytes back when the pages are there, in distinct frames apart from the tables |
| `PhysicalCopy.CountedIff` | kernel/ipc/kmail.c:91-108 | size is returned exactly when all was copied or only the last chunk's page is missing |
| `PhysicalCopy.CountsWhatIsMissing` | kernel/ipc/kmail.c:91-108 | 16 bytes of an empty address space: none is copied and 16 is returned |
| `PhysicalCopy.PlaceIsWalk` | kernel/ipc/kmail.c:95-101 | for user addresses with small pages the place is where the walk leads |

## Left out

- Device I/O, interrupts, caches, TLB and timers: transfers succeed and the disk is a map; times of day are not kept.
- crash and panic: where a method has a precondition that the source tests with crash, the precondition is that test; where the test can be proved never to fire, it is an unreachable branch.
- bh_locked, i_locked and the task switch: the file system is one task that serves one call at a time.
- breada, dupfd, memmove, free_file_blk, the path walk (get_last_dir, dir_namei, namei), do_ls, do_chdir and the shell: not modelled.
- do_mkdir and do_rmdir, and mknod of a directory: only names of inodes that are not directories are added and removed; the number of links of a directory is therefore only set by the formatter.
- The slots of the inode cache in the system calls: `InodeCaches` has iget, iput and the search for a slot; the calls on names take the copy that its search finds as a parameter, and new_inode gets a new object.
- Mount crossing, chroot and do_mount: a name that starts with ".." is looked up like any other.
- Completeness of new_block: it does not look below sb_pos again in the block it started in; `Exhausted` states what it does look at.
- Directories.FindEntry: does not model that a name starting with ".." is looked up in the mounting directory or cut to "." in the process root, nor that the buffer stays pinned between the search and the use of the record; the caller gets the record's place and number.
- Namespaces.Namespace.DoHlink: the branch for two devices, because one volume is modelled; the 16-bit maximum of links and references is excluded, and `LinkCountsIff` says what happens at it.
- Directories.AddEntry: names of exactly 60 characters are excluded, because their terminator is written outside the record; `StoresStayIff` gives the exact condition and the effect.
- Namespaces.Namespace.OpenNamei: iget running out of slots; the flag word is given by what its bits ask for (`Access`: O_ACCMODE, O_CREAT, O_EXCL, O_TRUNC).
- InodeCaches.InodeCache.Iget: a cache with every slot held is excluded, where the source loops for ever, and so is a reference count beyond 16 bits.
- Namespaces.Namespace.DoMknod: directory modes are excluded: do_mknod would make a directory without . and .., which is do_mkdir's work.
- FileRw.FileWr: files of 4 GB and more are excluded, where the 32-bit position wraps; positions beyond the block map stop the system in the source.
- BufferCaches.BufferCache.Bread: as GetBlk below, pin counts above 255 are excluded; a failed transfer is not modelled.
- BufferCaches.BufferCache.GetBlk: pin counts above 255 and a cache with every buffer pinned are excluded; in the latter case the source loops for ever.
- put_pages_to_list, free_pages and coalescing: the running system reaches them only in the retry loop of find_free_page_dir, which is proved not to run.
- Buddies.BuddyLists.GetFreePages: does not model that the bytes of the block are cleared; the page-table model clears the pages it takes.
- Buddies.GetOrder: sizes above 2^31 are excluded, where the shift goes beyond the 32 bits of its operand and the loop has no defined end.
- Fine page tables and tiny pages: the kernel makes none; a walk that meets one faults in the model.
- KernelMaps.VectorPage: the other entries of the vector table are whatever memory held before, as in the source, so addresses in the vector table's megabyte other than that page are not described.
- PhysicalCopy.Physrw: tables and frames outside RAM and writes into the target's own tables are excluded; the caller's buffer is a separate array; the pid is already resolved to a task.
- AddressSpaces.NewSpace: createp uses the page directory without checking that there was memory for one; the model stops there. The image and stack pages it maps afterwards are `MapPage` steps.
- IPC queues and sendm's direct switch_to: the waiting bound is for switching through schedule.
- The NAND translation cache, UART, LCD, RTC, ADC and boot code: not modelled.
- Strings.Itoa: a base of 0 or 1, on which the source divides by zero or does not terminate, is excluded.
- Strings.Strtol: the error pointer, because no input makes the source set it.
