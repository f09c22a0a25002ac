# RSFS storage core in Dafny

RSFS is an in-memory file system over a fixed pool of data blocks and inodes. It has a flat root
directory and an open-file table, and its API is `RSFS_create`, `RSFS_open`, `RSFS_append`,
`RSFS_fseek`, `RSFS_read`, `RSFS_write`, `RSFS_close`, `RSFS_delete`, `RSFS_cut` and `RSFS_stat`
(`mcmahon4_Project2_COMS352/RSFS/api.c`). This project models that storage core as one sequential
class and proves what each call does to it.

- `arith.dfy` (module `Arith`): the position arithmetic. Byte `q` of a file lives in pointer slot
  `q / BLOCK_SIZE` at offset `q % BLOCK_SIZE`. Also `min`.
- `bitmap.dfy` (module `Bitmap`): the data and inode bitmaps. It holds the first-fit allocator,
  `free`, the counting loops of the status report and the number of set bits that specifies them.
- `rsfs.dfy` (module `RSFS`): class `FileSystem`. Its state:
  - `dataBitmap`, and `blocks` (a `NUM_DBLOCKS x BLOCK_SIZE` byte matrix);
  - `inodeBitmap`, and `inodes` (a length plus `NUM_POINTER` pointers, `-1` meaning unused);
  - the open-file `table`, whose entries are used flag, access flag, position and directory name;
  - the `directory`, a map from name to inode number.

  Every API call is a method over this state. The loops of append, read, write, delete and stat
  are `while`/`for` loops with invariants.
- `scenarios.dfy` (module `Scenarios`): sequences of calls on one file system. One of them is
  the write, seek, read round trip. The others run the append of the source against the
  corrected one, for each of the Findings.

The object invariant `Valid()` holds before and after every call:
- every pointer is `-1` or names a block set in the data bitmap;
- no data block is named by two pointers, of the same inode or of different ones;
- an inode that is free in the inode bitmap is empty;
- a directory entry holds `-1` or an allocated inode that no other name holds;
- a used table entry names a directory entry with an inode, at a non-negative position.

A second invariant, `Accounted()`, says that nothing is lost: every data block set in the bitmap
is named by some pointer of some inode (`BlocksNamed`), and every inode set in the inode bitmap is
named by some directory entry (`InodesNamed`). Create, open, fseek, read, write, close, cut,
delete and the corrected append preserve it. The append of the source does not (see Findings).

`Mapped(k, q)` says byte `q` of inode `k` lies in an allocated block. `ByteAt(k, q)` is that
byte. Write, append and read are specified through these two, so "read returns what write
stored" is a statement about file contents rather than block indices.

`position <= length` does not hold in general. `RSFS_cut` on one descriptor can shrink the file
below the position of another descriptor on the same file. `RSFS_read` then computes a negative
count, copies nothing, and moves that position back to the length. The model keeps this
behaviour.

Three behaviours of the code differ from what its comments and the API's documentation describe. The model follows the code:
- `RSFS_append` starts at the entry's position, not at the file length. It rounds a mid-block
  position up to the next block but keeps its offset. It updates neither the length nor the
  position (see Findings).
- `RSFS_append` does not check that the entry is in use, so it writes through a closed
  descriptor (see Findings).
- `RSFS_append` gives every slot it reaches at a block boundary a new block, even a slot that
  already holds one. The block it held stays marked used and is no longer reachable (see
  Findings).

`FilledIn` and `MarkedIn` describe what write and append do to the pointers of the file and to
the data bitmap. The slots of a range, or only the empty ones among them (write), each receive a
block that was free before; a slot where allocation failed holds -1; every other pointer is kept.
A block is then marked used exactly when it was used before or a changed pointer names it.

## Model

| member | source | states |
|---|---|---|
| Bitmap.CountSet | mcmahon4_Project2_COMS352/RSFS/api.c:325-336 | the number of set bits is at most the length; it is 0 exactly when no bit is set and equals the length exactly when every bit is set |
| Bitmap.CountSetUpdate | mcmahon4_Project2_COMS352/RSFS/api.c:325-331 | changing one bit changes the count by exactly the difference of the old and new bit |
| Bitmap.CountSetIsSize | mcmahon4_Project2_COMS352/RSFS/api.c:325-336 | the number of set bits is the size of the set of positions whose bit is set |
| Bitmap.Allocate | mcmahon4_Project2_COMS352/RSFS/api.c:82-86 | -1 exactly when every bit is set, and then nothing changes; otherwise it returns a clear bit, sets it, leaves every other bit alone and raises the count by one |
| Bitmap.Count | mcmahon4_Project2_COMS352/RSFS/api.c:326 | the summing loop of the report returns the number of set bits |
| Bitmap.Free | mcmahon4_Project2_COMS352/RSFS/api.c:298 | only bit i is cleared; the count drops by one when it was set |
| Arith.Min | mcmahon4_Project2_COMS352/RSFS/api.c:7 | the `min` macro: the result is at most both arguments and equal to one of them |
| RSFS.FillStep | mcmahon4_Project2_COMS352/RSFS/api.c:149-162 | one loop pass over slot hi: if the slot is one to fill, it gets a block free in the current bitmap, which is then set; the filled range grows by hi and the bitmap stays exact against the snapshot |
| RSFS.FillFails | mcmahon4_Project2_COMS352/RSFS/api.c:152-156 | allocation fails in slot hi of append: the slot becomes -1, the bitmap is unchanged, and the filled range records the failure |
| RSFS.FillKeepsNamed | mcmahon4_Project2_COMS352/RSFS/api.c:372-379 | filling only empty slots with blocks free before, with an exact bitmap, as write does, keeps every used data block named by a pointer |
| RSFS.HeldBlockLost | mcmahon4_Project2_COMS352/RSFS/api.c:150-156 | replacing a slot that held a block no other pointer names, with an exact bitmap, as append does at a block boundary, leaves that block used and named by no pointer |
| RSFS.ReleaseKeepsNamed | mcmahon4_Project2_COMS352/RSFS/api.c:288-294 | clearing exactly the blocks of one inode and resetting its pointers, as delete does, keeps every used data block named |
| RSFS.PointersKeepNamed | mcmahon4_Project2_COMS352/RSFS/api.c:394-396 | changing lengths only, as cut and write do, keeps every used data block named |
| RSFS.InsertKeepsNamed | mcmahon4_Project2_COMS352/RSFS/api.c:78 | a new name without an inode keeps every allocated inode named |
| RSFS.BindKeepsNamed | mcmahon4_Project2_COMS352/RSFS/api.c:90 | storing a freshly allocated inode in an entry without one makes every allocated inode named, if all the others were |
| RSFS.UnbindKeepsNamed | mcmahon4_Project2_COMS352/RSFS/api.c:295-302 | freeing the inode of a name while removing the name keeps every allocated inode named |
| RSFS.AppendStart | mcmahon4_Project2_COMS352/RSFS/api.c:143-145 | the first byte append writes goes to the rounded-up block number at offset pos % BLOCK_SIZE, which is pos at a block boundary and pos + BLOCK_SIZE otherwise |
| RSFS.CopyToBlock | mcmahon4_Project2_COMS352/RSFS/api.c:162 | offsets off .. off+n-1 of block b hold src[from ..]; every other cell of every block is unchanged |
| RSFS.FileSystem.InodeOf | mcmahon4_Project2_COMS352/RSFS/api.c:136 | a used descriptor leads, through its directory entry, to an allocated inode |
| RSFS.FileSystem.EntryInode | mcmahon4_Project2_COMS352/RSFS/api.c:136 | the inode reached through an entry's directory entry, used or not, is an allocated inode |
| RSFS.FileSystem.CellsDistinct | mcmahon4_Project2_COMS352/RSFS/api.c:383 | under the invariant, two different file positions, of the same file or of two files, never share a block cell |
| RSFS.FileSystem.constructor | mcmahon4_Project2_COMS352/RSFS/api.c:12-59 | both bitmaps clear, every inode of length 0 with all pointers -1, every table entry unused, directory empty, invariant established |
| RSFS.FileSystem.AllocateDataBlock | mcmahon4_Project2_COMS352/RSFS/api.c:374-379 | -1 exactly when every data block is used, with the bitmap unchanged; otherwise a block that was free, now marked used, no other bit changed, invariant kept |
| RSFS.FileSystem.AllocateInode | mcmahon4_Project2_COMS352/RSFS/api.c:82-86 | -1 exactly when every inode is used; otherwise an inode that was free, now marked used, whose length is 0 and whose pointers are all -1 |
| RSFS.FileSystem.FreeInode | mcmahon4_Project2_COMS352/RSFS/api.c:298 | clears the inode's bit and nothing else |
| RSFS.FileSystem.AllocateOpenFileEntry | mcmahon4_Project2_COMS352/RSFS/api.c:110 | -1 exactly when every entry is used, with the table unchanged; otherwise the descriptor of a formerly unused entry, now used, with the given flag, at position 0, referring to the name; no other entry changes |
| RSFS.FileSystem.SetPosition | mcmahon4_Project2_COMS352/RSFS/api.c:201 | only the position of that entry changes, and the invariant is kept |
| RSFS.FileSystem.SetLength | mcmahon4_Project2_COMS352/RSFS/api.c:394-396 | only the length of that inode changes; every mapped byte of every file keeps its value; Accounted is preserved |
| RSFS.FileSystem.FreeOpenFileEntry | mcmahon4_Project2_COMS352/RSFS/api.c:250 | only the used flag of that entry is cleared |
| RSFS.FileSystem.ReplaceBlock | mcmahon4_Project2_COMS352/RSFS/api.c:152-156 | the slot receives a freshly allocated block, or -1 exactly when none is free; the invariant is kept; the bytes of every other slot of every file are unchanged |
| RSFS.FileSystem.CopyChunk | mcmahon4_Project2_COMS352/RSFS/api.c:383 | positions x .. x+n-1 of the file read back the copied bytes; no other byte of any file changes |
| RSFS.FileSystem.ChunkReadsBack | mcmahon4_Project2_COMS352/RSFS/api.c:227-231 | bytes stored at the in-block offsets of position x are what read finds at positions x .. x+n-1 |
| RSFS.FileSystem.Create | mcmahon4_Project2_COMS352/RSFS/api.c:65-94 | an existing name gives -1 and nothing changes. Otherwise the name is inserted, and the result is -2 exactly when no inode is free (the name stays, with -1). Else it is 0, with the name bound to a formerly free, now used, empty inode. Nothing is lost (Accounted preserved) |
| RSFS.FileSystem.InsertDir | mcmahon4_Project2_COMS352/RSFS/api.c:78 | a new name enters the directory without an inode (-1); nothing else changes, and every allocated inode stays named |
| RSFS.FileSystem.SetInodeNumber | mcmahon4_Project2_COMS352/RSFS/api.c:90 | the entry now holds the allocated inode, and nothing else changes. If every other allocated inode was named, every allocated inode now is |
| RSFS.FileSystem.Open | mcmahon4_Project2_COMS352/RSFS/api.c:97-111 | -1 for a flag other than RDONLY or RDWR, with nothing changed. Otherwise it is the outcome of allocate_open_file_entry: an unused entry at position 0, or -1 when the table is full. Accounted holds after exactly when it held before |
| RSFS.FileSystem.Append | mcmahon4_Project2_COMS352/RSFS/api.c:114-174 | -1 with nothing changed for a bad fd, size <= 0 or a non-RDWR entry, whether or not the entry is in use; else a count r <= size. The bytes at AppendStart(position) .. + r read back buf[.. r], and length and position are unchanged. Every slot from the first block boundary at or after that start up to the last slot reached holds a block free before the call, replacing what it held; the slot where allocation failed holds -1; every other pointer is kept. The bitmap gains exactly the new blocks. Every byte of every file is kept except the r bytes written and the bytes of the replaced slots (including the slot where allocation failed); in particular the rest of a first slot that the append starts inside and does not replace is kept. r < size only when every data block is used, and r = 0 only when none was free |
| RSFS.FileSystem.AppendBlocks | mcmahon4_Project2_COMS352/RSFS/api.c:140-173 | the append loop: the partial count and the bytes read back. The slots from the first block boundary up to the last slot reached each hold a block free before the loop, and the failing slot holds -1. The bitmap gains exactly those blocks, every byte outside the bytes written and the replaced slots (including the failing one) is kept, and the failure state holds when it stops early |
| RSFS.FileSystem.AppendStep | mcmahon4_Project2_COMS352/RSFS/api.c:149-170 | one pass of the append loop extends the appended range by n bytes and the replaced slots by one, with the bitmap still exact and every byte outside the bytes written and the slots replaced so far kept. When allocation fails at a block boundary, it leaves the range as it was, with the slot at -1 and the bitmap full and unchanged |
| RSFS.FileSystem.AppendChunk | mcmahon4_Project2_COMS352/RSFS/api.c:149-162 | the storing half of an append pass: the slot gets a block free before and different from what it held, or -1 when none is free; the bytes read back; against the snapshot taken when the loop began, every byte outside the positions written so far and the slots replaced so far (this one only when replaced) is kept |
| RSFS.FileSystem.AppendStore | mcmahon4_Project2_COMS352/RSFS/api.c:149-162 | the slot is replaced exactly at a block boundary, the copied bytes and the bytes appended before them read back, and nothing else of any file changes |
| RSFS.FileSystem.AppendAtEnd | mcmahon4_Project2_COMS352/RSFS/api.c:138-168 | corrected append: -1 with nothing changed for an unused entry, size <= 0 or a non-RDWR entry. Otherwise the bytes land at the old length, and the length grows by r while the position moves to the new end of the file. Only the empty slots among those the bytes reach receive blocks free before, and exactly those become used. The bytes read back, other bytes are kept, r < size only at the last slot or with no free block, and nothing is lost (Accounted preserved) |
| RSFS.FileSystem.Fseek | mcmahon4_Project2_COMS352/RSFS/api.c:178-205 | -1 for a bad fd. An offset outside [0, length] returns the unchanged position; otherwise the position becomes the offset, which is returned. Accounted holds after exactly when it held before |
| RSFS.FileSystem.Read | mcmahon4_Project2_COMS352/RSFS/api.c:208-240 | -1 with nothing changed for a bad fd or size < 0. Otherwise r = min(size, length - position), and the position advances by r. The r bytes returned are the file's bytes from the position on. Only the table changes, and Accounted holds after exactly when it held before |
| RSFS.FileSystem.ReadBytes | mcmahon4_Project2_COMS352/RSFS/api.c:227-231 | the copy loop returns max(count, 0) bytes, byte j being byte p + j of the file |
| RSFS.FileSystem.StoreChunk | mcmahon4_Project2_COMS352/RSFS/api.c:372-383 | optional allocation into the slot, then the copy: the positions read back the bytes and nothing else of any file changes; on allocation failure the slot is -1 and the bitmap and blocks are unchanged |
| RSFS.FileSystem.WriteStep | mcmahon4_Project2_COMS352/RSFS/api.c:372-390 | one pass of the write loop: an empty slot gets a block free in the bitmap, other pointers are kept, and the filled range grows by the slot with the bitmap still exact. The bytes read back and the position advances by n. On failure nothing changes |
| RSFS.FileSystem.Write | mcmahon4_Project2_COMS352/RSFS/api.c:343-403 | -1 for a bad fd or size < 0; else r <= size, and the position advances by exactly r. The length becomes max(old length, new position). Exactly the empty slots holding positions p .. p + r - 1 receive blocks free before, every other pointer is kept, and the bitmap gains exactly those blocks. The bytes from the old position read back buf[.. r], and all other bytes of all files are kept. r < size only at slot NUM_POINTER or with no free block. Nothing is lost (Accounted preserved) |
| RSFS.FileSystem.WriteBlocks | mcmahon4_Project2_COMS352/RSFS/api.c:360-391 | the write loop: all of Write's promises about the count, the position, the pointers, the bitmap and the bytes, except the length update |
| RSFS.FileSystem.Close | mcmahon4_Project2_COMS352/RSFS/api.c:243-253 | -1 for a bad fd with nothing changed. Otherwise 0, and only that entry's used flag is cleared. Accounted holds after exactly when it held before |
| RSFS.FileSystem.Cut | mcmahon4_Project2_COMS352/RSFS/api.c:406-442 | -1 for a bad fd or size <= 0 with nothing changed. Otherwise size is returned, and the length becomes position + size. The position stays at most the new length, no other inode changes, and Accounted is preserved |
| RSFS.FileSystem.FileIsOpen | mcmahon4_Project2_COMS352/RSFS/api.c:269-281 | true exactly when some used entry refers to the inode |
| RSFS.FileSystem.ReleaseSlot | mcmahon4_Project2_COMS352/RSFS/api.c:289-293 | the pointer becomes -1 and exactly its block is cleared in the data bitmap; invariant kept |
| RSFS.FileSystem.ReleaseBlocks | mcmahon4_Project2_COMS352/RSFS/api.c:288-294 | every pointer of the inode becomes -1, and exactly the blocks it named are cleared in the data bitmap; other inodes untouched |
| RSFS.FileSystem.Delete | mcmahon4_Project2_COMS352/RSFS/api.c:256-304 | -1 with nothing changed when the name is absent or its file is open. Otherwise 0: the name is removed, the inode is emptied and freed, and exactly its blocks are cleared. Other inodes are untouched, and Accounted is preserved |
| RSFS.FileSystem.Unlink | mcmahon4_Project2_COMS352/RSFS/api.c:295-302 | length reset to 0, inode bit cleared, name removed; invariant kept |
| RSFS.FileSystem.Stat | mcmahon4_Project2_COMS352/RSFS/api.c:324-337 | the three usage counts are the numbers of used data blocks, of allocated inodes and of descriptors in use, each both as the count of set flags and as the size of the set of those blocks, inodes and descriptors |
| RSFS.FileSystem.CountOpen | mcmahon4_Project2_COMS352/RSFS/api.c:335-336 | the number of used entries of the open-file table, which is the number of descriptors that pass the sanity test `InUse` of fseek, read, close, write and cut (lines 180, 210, 245, 345, 408) |
| Scenarios.WriteSeekRead | mcmahon4_Project2_COMS352/RSFS/api.c:227-231 | write of size bytes, then fseek back, then read of the count written returns exactly the bytes written |
| Scenarios.AppendThenSeekAsWritten | mcmahon4_Project2_COMS352/RSFS/api.c:133-173 | on a file whose position is its end, with a free data block, append reports a positive count, yet the seek to the end of what was appended is refused and returns the old position |
| Scenarios.AppendThenSeekCorrected | mcmahon4_Project2_COMS352/RSFS/api.c:138-139 | with the corrected append, the seek to old length + count is accepted |
| Scenarios.AppendAfterClose | mcmahon4_Project2_COMS352/RSFS/api.c:114-136 | close returns 0 and the entry is unused, yet append on it returns a positive count and the byte lands in the file the closed entry named |
| Scenarios.AppendAfterCloseCorrected | mcmahon4_Project2_COMS352/RSFS/api.c:114-136 | with the corrected append, close then append returns -1 |
| Scenarios.AppendOverHeldBlock | mcmahon4_Project2_COMS352/RSFS/api.c:150-156 | append from a block boundary whose slot already holds a block, with a free data block: a positive count, and afterwards a used data block that no pointer names |
| Scenarios.AppendThenReadCorrected | mcmahon4_Project2_COMS352/RSFS/api.c:138-139 | with the corrected append, reading back from the old end returns exactly the bytes appended |

## Left out

- The capacities (`NUM_DBLOCKS`, `BLOCK_SIZE`, `NUM_INODES`, `NUM_POINTER`, `NUM_OPEN_FILE`) and the flag values come from `def.h`. It is not part of this model, so the capacities are constructor parameters and RDONLY/RDWR are two distinct constants.
- All locking is left out because it is concurrency: the pthread mutexes, the per-inode reader count, `mutex_for_fs_stat`, and the blocking reader/writer policy inside `allocate_open_file_entry`. The model has no locks, so it does not capture calls that block forever in the source:
  - `RSFS_append` locks its entry's `entry_mutex` (api.c:123) and never releases it when it returns a count (api.c:155, api.c:173). The next read, write, cut or append on that descriptor blocks (api.c:220, 353, 415, 123), as does a delete that scans that entry (api.c:272).
  - A delete refused because the file is open (api.c:276) keeps `root_dir.mutex` and `open_file_table_mutex` held. The next delete blocks at api.c:265.

  In the model these later calls complete.
- `malloc`/`free` of block buffers (api.c:16, api.c:290) are left out, because blocks are always present in the model. Freeing is clearing the bitmap bit. The `-1` of `RSFS_init` when `malloc` fails is not modelled.
- `printf`/`DEBUG` output is left out, as is the file listing and all printing of `RSFS_stat`. Only its three counts are modelled.
- C `int` width is not modelled. Integers are unbounded, so an overflow of `position + size` in cut or write is not represented.
- `search_dir`, `insert_dir` and `delete_dir` are not part of this model, and the directory is a map. The order of the linked list is not represented.
- `mcmahon4_Project1A_COMS352/unicast.c` (process and pipe plumbing) is not part of this model.
- RSFS.FileSystem.constructor: `RSFS_init` resets copies of the table entries (api.c:43), so it never touches the table itself. The model starts with every entry unused, as the zero-initialised static table is.
- RSFS.FileSystem.InsertDir: `insert_dir` is not shown. A new entry holds -1 until create stores the inode number.
- RSFS.FileSystem.Open: requires that the name exist and have an inode when the flag is valid. The source passes a NULL entry or one with inode -1 on to `allocate_open_file_entry`, which is not shown.
- RSFS.FileSystem.AllocateOpenFileEntry: the function is not shown. Its contract is "some unused entry, or -1 when all are used", and its body is a first-fit scan.
- Bitmap.Allocate: `allocate_data_block` and `allocate_inode` are not shown. The contract promises some clear bit, not the first one.
- RSFS.FileSystem.Append: requires that the entry, used or not, still refer to a name with an inode. It also requires that every slot the append would reach if no allocation failed lie below NUM_POINTER. This excludes a large append that the source would stop safely when the data blocks run out before that slot. Finally, when the position is inside a block, it requires that the slot after the position's own, where the rounded-up start lands and which is written without allocation, hold a block. Otherwise the source indexes past the pointer array or into block -1.
- RSFS.FileSystem.Append: table entries refer to the directory by name, not by entry. After close, delete and a create of the same name, the model treats the re-created file as the one a closed entry still names, and appends to it. In the source that entry's `dir_entry` was freed by `delete_dir` (api.c:302), and api.c:136 reads freed memory. The model does not capture this use after free.
- RSFS.FileSystem.Append: the local `pos` (api.c:168) is not modelled, because it is never read again.
- RSFS.FileSystem.Read: requires that the blocks covering the bytes to be read be allocated. `RSFS_cut` can set a length past the allocated blocks, and the source would then read through pointer -1.
- RSFS.FileSystem.Delete: requires that the name, when present, have an inode. A name left by a failed create holds -1, and the source would index inode -1.
- RSFS.FileSystem.Cut: the clamp of the position (api.c:432-434) is not modelled as a branch. With size > 0 it can never fire, and the contract states the resulting bound.
- RSFS.FileSystem.Stat: requires only that the arrays have their configured sizes, and returns the counts instead of printing them.

## Findings

| source | as written | input that shows it | evidently intended | confidence | as-written member | corrected member |
|---|---|---|---|---|---|---|
| mcmahon4_Project2_COMS352/RSFS/api.c:133-173 | append writes from the entry's position and advances only its local `pos`; the file length and the entry's position stay as they were | create "a", open it RDWR, append "hello" (size 5) with a free data block: append returns 5; fseek(fd, 5) then returns 0, because the length is still 0 | append to the end of the file and advance length and position by the count appended, as the comments at lines 138 and 167 say, so the seek to 5 succeeds | not executed | Scenarios.AppendThenSeekAsWritten | RSFS.FileSystem.AppendAtEnd |
| mcmahon4_Project2_COMS352/RSFS/api.c:116-136 | append tests fd's range, size and the access flag, but not the entry's `used` flag, unlike fseek, read, write, close and cut | create "a", open it RDWR (fd 0), close(0) returns 0, append(0, "x", 1) with a free data block returns 1 and stores "x" in the first block of "a" | refuse an unused entry with -1, as the other calls do | not executed | Scenarios.AppendAfterClose | Scenarios.AppendAfterCloseCorrected |
| mcmahon4_Project2_COMS352/RSFS/api.c:150-156 | at every block boundary append assigns `allocate_data_block()` to the slot, even when the slot already holds a block; the old block stays set in the data bitmap | create "a", open it RDWR, write 5 bytes (slot 0 gets a block), fseek 0, append 1 byte with a free data block: stat then counts 2 used data blocks while "a" names only 1 | allocate only for a slot holding -1, as write does (line 372), so that every used block stays named; the corrected append keeps `Accounted()` | not executed | Scenarios.AppendOverHeldBlock | RSFS.FileSystem.AppendAtEnd |
