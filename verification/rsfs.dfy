/** The storage core of RSFS, an in-memory file system over a fixed pool of data blocks and
    inodes, with a flat directory and an open-file table (RSFS/api.c).

    The capacities NUM_DBLOCKS, BLOCK_SIZE, NUM_INODES, NUM_POINTER and NUM_OPEN_FILE come from
    def.h, which is not part of this model: here they are fixed when a FileSystem is built. */
module RSFS {
  import opened Arith
  import Bitmap

  newtype byte = x: int | 0 <= x < 256

  /** Access flags of an open-file entry. Their numeric values live in def.h (not part of this
      model); only that they differ matters. */
  const RDONLY: int := 0
  const RDWR: int := 1

  /** An inode: the file length in bytes and NUM_POINTER block pointers, -1 marking an unused one. */
  datatype Inode = Inode(length: int, block: seq<int>)

  /** A slot of the open-file table. `file` names the directory entry the slot refers to. */
  datatype OpenFileEntry = OpenFileEntry(used: bool, accessFlag: int, position: int, file: string)

  /** The state RSFS_init gives every inode, and the state delete leaves a freed inode in. */
  predicate IsEmpty(ino: Inode)
  {
    ino.length == 0 && forall s :: 0 <= s < |ino.block| ==> ino.block[s] == -1
  }

  /** The `used` flags of the open-file table, as summed by the status report. */
  function UsedFlags(t: seq<OpenFileEntry>): (flags: seq<bool>)
  {
    seq(|t|, i requires 0 <= i < |t| => t[i].used)
  }

  /** Where append puts its first byte: the source rounds the block index up
      ((pos + BLOCK_SIZE - 1) / BLOCK_SIZE) but keeps the offset pos % BLOCK_SIZE, so a position
      inside a block is moved one whole block further on. */
  function AppendStart(pos: int, bs: int): (start: int)
    requires pos >= 0 && bs > 0
    ensures start == if pos % bs == 0 then pos else pos + bs
    ensures start / bs == (pos + bs - 1) / bs && start % bs == pos % bs
  {
    var blockNumber := (pos + bs - 1) / bs;
    var offset := pos % bs;
    DivModUnique(pos, bs, pos / bs, offset);
    if offset == 0 then
      SameBlock(pos, bs - 1, bs);
      DivModUnique(blockNumber * bs + offset, bs, blockNumber, offset);
      blockNumber * bs + offset
    else
      NextBlock(pos, bs);
      SameBlock(pos + (bs - offset), offset - 1, bs);
      DivModUnique(blockNumber * bs + offset, bs, blockNumber, offset);
      blockNumber * bs + offset
  }

  /** memcpy of n bytes of src, from index `from`, into data block b at offset `off`. */
  method CopyToBlock(blocks: array2<byte>, b: int, off: int, src: seq<byte>, from: int, n: int)
    requires 0 <= b < blocks.Length0 && 0 <= off && 0 <= n && off + n <= blocks.Length1
    requires 0 <= from && from + n <= |src|
    modifies blocks
    ensures forall o :: off <= o < off + n ==> blocks[b, o] == src[from + (o - off)]
    ensures forall b', o :: 0 <= b' < blocks.Length0 && 0 <= o < blocks.Length1 && !(b' == b && off <= o < off + n)
              ==> blocks[b', o] == old(blocks[b', o])
  {
    var t := 0;
    while t < n
      invariant 0 <= t <= n
      invariant forall o :: off <= o < off + t ==> blocks[b, o] == src[from + (o - off)]
      invariant forall b', o :: 0 <= b' < blocks.Length0 && 0 <= o < blocks.Length1 && !(b' == b && off <= o < off + t)
                  ==> blocks[b', o] == old(blocks[b', o])
    {
      blocks[b, off + t] := src[from + t];
      t := t + 1;
    }
  }

  /** Block b was free in the bitmap snapshot bits, so an allocation may return it. */
  predicate FreshIn(bits: seq<bool>, b: int)
  {
    0 <= b < |bits| && !bits[b]
  }

  /** The pointers ptr of one inode, against a snapshot ptr0 taken with the data bitmap bits0:
      every slot lo .. hi - 1 (of those, only the slots that held -1 when onlyEmpty is set)
      now names a block that was free in bits0; when failed, slot hi holds -1; every other
      slot is as in ptr0. */
  predicate FilledIn(ptr0: seq<int>, bits0: seq<bool>, ptr: seq<int>, lo: int, hi: int, onlyEmpty: bool, failed: bool)
  {
    && |ptr| == |ptr0|
    && forall s :: 0 <= s < |ptr0| ==>
         if lo <= s < hi && (!onlyEmpty || ptr0[s] == -1) then FreshIn(bits0, ptr[s])
         else if failed && s == hi then ptr[s] == -1
         else ptr[s] == ptr0[s]
  }

  /** The data bitmap bits, against a snapshot (ptr0, bits0) of one inode's pointers and of the
      bitmap: a block is marked used exactly when it was marked then, or a pointer of the inode
      that has changed since names it. */
  predicate MarkedIn(ptr0: seq<int>, bits0: seq<bool>, ptr: seq<int>, bits: seq<bool>)
  {
    && |bits| == |bits0| && |ptr| == |ptr0|
    && forall c :: 0 <= c < |bits| ==>
         (bits[c] <==> bits0[c] || exists s :: 0 <= s < |ptr| && ptr[s] != ptr0[s] && ptr[s] == c)
  }

  /** One pass of the write and append loops over slot hi: when the slot is one to fill, it
      receives a block b free in the current bitmap, which is then marked used; otherwise
      nothing changes. The filled range grows by that slot and the bitmap stays exact. */
  lemma {:induction false} FillStep(ptr0: seq<int>, bits0: seq<bool>, ptr: seq<int>, bits: seq<bool>,
                                    lo: int, hi: int, onlyEmpty: bool, b: int)
    requires FilledIn(ptr0, bits0, ptr, lo, hi, onlyEmpty, false) && MarkedIn(ptr0, bits0, ptr, bits)
    requires 0 <= hi < |ptr|
    requires lo <= hi && (!onlyEmpty || ptr0[hi] == -1) ==> FreshIn(bits, b) && ptr[hi] != b
    requires !(lo <= hi && (!onlyEmpty || ptr0[hi] == -1)) ==> b == ptr[hi]
    ensures FilledIn(ptr0, bits0, ptr[hi := b], lo, hi + 1, onlyEmpty, false)
    ensures MarkedIn(ptr0, bits0, ptr[hi := b], if lo <= hi && (!onlyEmpty || ptr0[hi] == -1) then bits[b := true] else bits)
  {
    var ptr', fill := ptr[hi := b], lo <= hi && (!onlyEmpty || ptr0[hi] == -1);
    var bits' := if fill then bits[b := true] else bits;
    assert ptr[hi] == ptr0[hi];
    forall c | 0 <= c < |bits'|
      ensures bits'[c] <==> bits0[c] || exists s :: 0 <= s < |ptr'| && ptr'[s] != ptr0[s] && ptr'[s] == c
    {
      if fill && c == b {
        assert ptr'[hi] != ptr0[hi] && ptr'[hi] == c;
      } else if exists s :: 0 <= s < |ptr| && ptr[s] != ptr0[s] && ptr[s] == c {
        var s :| 0 <= s < |ptr| && ptr[s] != ptr0[s] && ptr[s] == c;
        assert ptr'[s] != ptr0[s] && ptr'[s] == c;
      } else {
        forall s | 0 <= s < |ptr'| && ptr'[s] != ptr0[s]
          ensures ptr'[s] != c
        {
          if s != hi {
            assert ptr[s] != ptr0[s];
          }
        }
      }
    }
    if fill {
      assert !bits0[b];
    }
  }

  /** Allocation fails in slot hi of append: the slot is set to -1 and the bitmap is unchanged. */
  lemma {:induction false} FillFails(ptr0: seq<int>, bits0: seq<bool>, ptr: seq<int>, bits: seq<bool>, lo: int, hi: int)
    requires FilledIn(ptr0, bits0, ptr, lo, hi, false, false) && MarkedIn(ptr0, bits0, ptr, bits)
    requires 0 <= hi < |ptr|
    ensures FilledIn(ptr0, bits0, ptr[hi := -1], lo, hi, false, true)
    ensures MarkedIn(ptr0, bits0, ptr[hi := -1], bits)
  {
    var ptr' := ptr[hi := -1];
    forall c | 0 <= c < |bits|
      ensures bits[c] <==> bits0[c] || exists s :: 0 <= s < |ptr'| && ptr'[s] != ptr0[s] && ptr'[s] == c
    {
      if exists s :: 0 <= s < |ptr| && ptr[s] != ptr0[s] && ptr[s] == c {
        var s :| 0 <= s < |ptr| && ptr[s] != ptr0[s] && ptr[s] == c;
        assert s != hi && ptr'[s] == c;
      }
    }
  }

  /** Every data block marked used is named by some pointer of some inode: no block is lost. */
  predicate BlocksNamed(bits: seq<bool>, nodes: seq<Inode>)
  {
    forall c :: 0 <= c < |bits| && bits[c] ==>
      exists k, s :: 0 <= k < |nodes| && 0 <= s < |nodes[k].block| && nodes[k].block[s] == c
  }

  /** Every inode marked allocated is named by some directory entry: no inode is lost. */
  predicate InodesNamed(ibits: seq<bool>, dir: map<string, int>)
  {
    forall k :: 0 <= k < |ibits| && ibits[k] ==> exists n :: n in dir && dir[n] == k
  }

  /** Filling only the empty slots of inode k, with the bitmap exact against the snapshot
      (bits0, nodes0), as write does, loses no block. */
  lemma {:induction false} FillKeepsNamed(bits0: seq<bool>, nodes0: seq<Inode>, bits: seq<bool>, nodes: seq<Inode>,
                                          k: int, lo: int, hi: int)
    requires BlocksNamed(bits0, nodes0)
    requires 0 <= k < |nodes0| == |nodes|
    requires forall j :: 0 <= j < |nodes| && j != k ==> nodes[j] == nodes0[j]
    requires FilledIn(nodes0[k].block, bits0, nodes[k].block, lo, hi, true, false)
    requires MarkedIn(nodes0[k].block, bits0, nodes[k].block, bits)
    ensures BlocksNamed(bits, nodes)
  {
    var ptr0, ptr := nodes0[k].block, nodes[k].block;
    forall c | 0 <= c < |bits| && bits[c]
      ensures exists k', s :: 0 <= k' < |nodes| && 0 <= s < |nodes[k'].block| && nodes[k'].block[s] == c
    {
      if exists s :: 0 <= s < |ptr| && ptr[s] != ptr0[s] && ptr[s] == c {
        var s :| 0 <= s < |ptr| && ptr[s] != ptr0[s] && ptr[s] == c;
        assert nodes[k].block[s] == c;
      } else {
        assert bits0[c];
        var k', s :| 0 <= k' < |nodes0| && 0 <= s < |nodes0[k'].block| && nodes0[k'].block[s] == c;
        if k' == k {
          assert ptr0[s] != -1;
          assert nodes[k].block[s] == c;
        } else {
          assert nodes[k'].block[s] == c;
        }
      }
    }
  }

  /** Replacing a slot s of inode k that held block c, which no other pointer names, while the
      bitmap stays exact, as append does at a block boundary: c stays marked used and nothing
      names it, so a block is lost. */
  lemma {:induction false} HeldBlockLost(bits0: seq<bool>, nodes0: seq<Inode>, bits: seq<bool>, nodes: seq<Inode>,
                                         k: int, s: int, lo: int, hi: int, failed: bool)
    requires 0 <= k < |nodes0| == |nodes| && 0 <= s < |nodes0[k].block| && lo <= s < hi
    requires 0 <= nodes0[k].block[s] < |bits0| && bits0[nodes0[k].block[s]]
    requires forall k', t :: 0 <= k' < |nodes0| && 0 <= t < |nodes0[k'].block| && nodes0[k'].block[t] == nodes0[k].block[s] ==>
               k' == k && t == s
    requires forall j :: 0 <= j < |nodes| && j != k ==> nodes[j] == nodes0[j]
    requires FilledIn(nodes0[k].block, bits0, nodes[k].block, lo, hi, false, failed)
    requires MarkedIn(nodes0[k].block, bits0, nodes[k].block, bits)
    ensures !BlocksNamed(bits, nodes)
  {
    var c := nodes0[k].block[s];
    assert bits[c];
    forall k', t | 0 <= k' < |nodes| && 0 <= t < |nodes[k'].block|
      ensures nodes[k'].block[t] != c
    {
      if k' == k && t == s {
        assert FreshIn(bits0, nodes[k].block[s]);
      } else if k' == k {
        assert nodes[k].block[t] == -1 || nodes[k].block[t] == nodes0[k].block[t] || FreshIn(bits0, nodes[k].block[t]);
      } else {
        assert nodes[k'] == nodes0[k'];
      }
    }
  }

  /** Clearing in the bitmap exactly the blocks inode k names, and resetting its pointers, as
      delete does, loses no block. */
  lemma {:induction false} ReleaseKeepsNamed(bits0: seq<bool>, nodes0: seq<Inode>, bits: seq<bool>, nodes: seq<Inode>, k: int)
    requires BlocksNamed(bits0, nodes0)
    requires 0 <= k < |nodes0| == |nodes| && |bits| == |bits0|
    requires forall j :: 0 <= j < |nodes| && j != k ==> nodes[j] == nodes0[j]
    requires forall c :: 0 <= c < |bits| ==> bits[c] == (bits0[c] && c !in nodes0[k].block)
    ensures BlocksNamed(bits, nodes)
  {
    forall c | 0 <= c < |bits| && bits[c]
      ensures exists k', s :: 0 <= k' < |nodes| && 0 <= s < |nodes[k'].block| && nodes[k'].block[s] == c
    {
      var k', s :| 0 <= k' < |nodes0| && 0 <= s < |nodes0[k'].block| && nodes0[k'].block[s] == c;
      assert nodes0[k'].block[s] in nodes0[k'].block;
      assert nodes[k'].block[s] == c;
    }
  }

  /** Changing lengths only, as cut does, loses no block. */
  lemma {:induction false} PointersKeepNamed(bits: seq<bool>, nodes0: seq<Inode>, nodes: seq<Inode>)
    requires BlocksNamed(bits, nodes0)
    requires |nodes| == |nodes0| && forall j :: 0 <= j < |nodes| ==> nodes[j].block == nodes0[j].block
    ensures BlocksNamed(bits, nodes)
  {
    forall c | 0 <= c < |bits| && bits[c]
      ensures exists k, s :: 0 <= k < |nodes| && 0 <= s < |nodes[k].block| && nodes[k].block[s] == c
    {
      var k, s :| 0 <= k < |nodes0| && 0 <= s < |nodes0[k].block| && nodes0[k].block[s] == c;
      assert nodes[k].block[s] == c;
    }
  }

  /** Adding a name with no inode (-1), as insert_dir does, loses no inode. */
  lemma {:induction false} InsertKeepsNamed(ibits: seq<bool>, dir0: map<string, int>, name: string)
    requires InodesNamed(ibits, dir0) && name !in dir0
    ensures InodesNamed(ibits, dir0[name := -1])
  {
    var dir := dir0[name := -1];
    forall j | 0 <= j < |ibits| && ibits[j]
      ensures exists n :: n in dir && dir[n] == j
    {
      var n :| n in dir0 && dir0[n] == j;
      assert n != name && dir[n] == j;
    }
  }

  /** Recording inode k in an entry that had none, as create does once k is allocated: if every
      other allocated inode was named, now every allocated inode is. */
  lemma {:induction false} BindKeepsNamed(ibits: seq<bool>, dir0: map<string, int>, name: string, k: int)
    requires 0 <= k < |ibits| && InodesNamed(ibits[k := false], dir0)
    requires name in dir0 && dir0[name] == -1
    ensures InodesNamed(ibits, dir0[name := k])
  {
    var dir := dir0[name := k];
    forall j | 0 <= j < |ibits| && ibits[j]
      ensures exists n :: n in dir && dir[n] == j
    {
      if j == k {
        assert dir[name] == j;
      } else {
        assert ibits[k := false][j];
        var n :| n in dir0 && dir0[n] == j;
        assert n != name && dir[n] == j;
      }
    }
  }

  /** Freeing the inode of a name while removing the name, as delete does, loses no inode. */
  lemma {:induction false} UnbindKeepsNamed(ibits0: seq<bool>, dir0: map<string, int>, name: string)
    requires InodesNamed(ibits0, dir0) && name in dir0 && 0 <= dir0[name] < |ibits0|
    ensures InodesNamed(ibits0[dir0[name] := false], dir0 - {name})
  {
    var ibits, dir := ibits0[dir0[name] := false], dir0 - {name};
    forall j | 0 <= j < |ibits| && ibits[j]
      ensures exists n :: n in dir && dir[n] == j
    {
      var n :| n in dir0 && dir0[n] == j;
      assert n != name && dir[n] == j;
    }
  }

  class FileSystem {
    const numDBlocks: nat
    const blockSize: nat
    const numInodes: nat
    const numPointer: nat
    const numOpenFile: nat

    /** data_bitmap and data_blocks: block b holds bytes blocks[b, 0 .. BLOCK_SIZE - 1]. */
    const dataBitmap: array<bool>
    const blocks: array2<byte>
    /** inode_bitmap and inodes. */
    const inodeBitmap: array<bool>
    const inodes: array<Inode>
    /** open_file_table. */
    const table: array<OpenFileEntry>
    /** The flat root directory: file name to inode number (-1 while none is assigned). */
    var directory: map<string, int>

    /** The object invariant: the conjunction below. */
    ghost predicate Valid()
      reads this, dataBitmap, inodeBitmap, inodes, table
    {
      Shapes() && InodesOk() && FreeInodesEmpty() && DirectoryOk() && TableOk()
    }

    /** The pools have their configured sizes, and the two bitmaps are distinct arrays. */
    ghost predicate Shapes()
    {
      && blockSize > 0
      && dataBitmap.Length == numDBlocks
      && blocks.Length0 == numDBlocks && blocks.Length1 == blockSize
      && inodeBitmap.Length == numInodes && inodes.Length == numInodes
      && table.Length == numOpenFile
      && dataBitmap != inodeBitmap
    }

    /** Every inode has a non-negative length and NUM_POINTER pointers, each -1 or a block marked
        used in the data bitmap; and no data block is named by two pointers. */
    ghost predicate InodesOk()
      reads inodes, dataBitmap
    {
      && inodes.Length == numInodes && dataBitmap.Length == numDBlocks
      && (forall k :: 0 <= k < numInodes ==> inodes[k].length >= 0 && |inodes[k].block| == numPointer)
      && (forall k :: 0 <= k < numInodes ==> PointersOk(k))
      && (forall k1, s1, k2, s2 :: 0 <= k1 < numInodes && 0 <= k2 < numInodes ==> Exclusive(k1, s1, k2, s2))
    }

    /** Each pointer of inode k is -1 or names a block marked used in the data bitmap. */
    ghost predicate PointersOk(k: int)
      reads inodes, dataBitmap
      requires 0 <= k < inodes.Length
    {
      forall s :: 0 <= s < |inodes[k].block| ==>
        inodes[k].block[s] == -1 || (0 <= inodes[k].block[s] < dataBitmap.Length && dataBitmap[inodes[k].block[s]])
    }

    /** Pointer s1 of inode k1 and pointer s2 of inode k2 name the same data block only if they
        are the same pointer. */
    ghost predicate Exclusive(k1: int, s1: int, k2: int, s2: int)
      reads inodes
      requires 0 <= k1 < inodes.Length && 0 <= k2 < inodes.Length
    {
      && 0 <= s1 < |inodes[k1].block| && 0 <= s2 < |inodes[k2].block|
      && inodes[k1].block[s1] >= 0 && inodes[k1].block[s1] == inodes[k2].block[s2]
      ==> k1 == k2 && s1 == s2
    }

    /** An inode that is free in the inode bitmap is empty. */
    ghost predicate FreeInodesEmpty()
      reads inodes, inodeBitmap
    {
      && inodes.Length == numInodes && inodeBitmap.Length == numInodes
      && forall k :: 0 <= k < numInodes ==> FreeInodeEmpty(k)
    }

    ghost predicate FreeInodeEmpty(k: int)
      reads inodes, inodeBitmap
      requires 0 <= k < inodes.Length && 0 <= k < inodeBitmap.Length
    {
      !inodeBitmap[k] ==> IsEmpty(inodes[k])
    }

    /** A directory entry holds -1 or an allocated inode that no other name holds. */
    ghost predicate DirectoryOk()
      reads this, inodeBitmap
    {
      && inodeBitmap.Length == numInodes
      && (forall n :: n in directory ==> directory[n] == -1 || (0 <= directory[n] < numInodes && inodeBitmap[directory[n]]))
      && (forall n1, n2 :: n1 in directory && n2 in directory && n1 != n2 && directory[n1] >= 0 ==> directory[n1] != directory[n2])
    }

    /** Every used open-file entry is well formed. */
    ghost predicate TableOk()
      reads this, table
    {
      && table.Length == numOpenFile
      && forall fd :: 0 <= fd < numOpenFile ==> EntryOk(fd)
    }

    /** A used open-file entry refers to a named file that has an inode, at a non-negative position. */
    ghost predicate EntryOk(fd: int)
      reads this, table
      requires 0 <= fd < table.Length
    {
      table[fd].used ==> table[fd].position >= 0 && table[fd].file in directory && directory[table[fd].file] >= 0
    }

    /** The sanity test on a file descriptor: in range and in use, that is, one of the entries
        the status report counts as open. */
    predicate InUse(fd: int)
      reads table
    {
      0 <= fd < table.Length && table[fd].used
    }

    /** The open-file entry fd, used or not, still refers to a named file that has an inode, at a
        non-negative position: what RSFS_append relies on, as it does not test `used`. */
    predicate Named(fd: int)
      reads this, table
    {
      0 <= fd < table.Length && table[fd].file in directory && directory[table[fd].file] >= 0 && table[fd].position >= 0
    }

    /** open_file_entry->dir_entry->inode_number, for an entry that refers to a named file. */
    function EntryInode(fd: int): (k: int)
      reads this, table, inodeBitmap
      requires DirectoryOk() && Named(fd)
      ensures 0 <= k < numInodes && inodeBitmap[k]
    {
      directory[table[fd].file]
    }

    /** open_file_entry->dir_entry->inode_number for a used descriptor. */
    function InodeOf(fd: int): (k: int)
      reads this, table, inodeBitmap
      requires DirectoryOk() && TableOk() && InUse(fd)
      ensures 0 <= k < numInodes && inodeBitmap[k]
      ensures Named(fd) && k == EntryInode(fd)
    {
      assert EntryOk(fd);
      EntryInode(fd)
    }

    /** Some used open-file entry refers to inode k. */
    ghost predicate HasOpenEntry(k: int)
      reads this, table
    {
      exists fd :: 0 <= fd < table.Length && table[fd].used && table[fd].file in directory && directory[table[fd].file] == k
    }

    /** Byte position q of inode k lies in an allocated block. */
    ghost predicate Mapped(k: int, q: int)
      reads inodes
    {
      && blockSize > 0 && blocks.Length1 == blockSize
      && 0 <= k < inodes.Length && 0 <= q
      && q / blockSize < |inodes[k].block|
      && 0 <= inodes[k].block[q / blockSize] < blocks.Length0
    }

    /** The data block that holds byte position q of inode k. */
    ghost function BlockOf(k: int, q: int): (b: int)
      reads inodes
      requires Mapped(k, q)
      ensures 0 <= b < blocks.Length0
    {
      inodes[k].block[q / blockSize]
    }

    /** Byte q of the file of inode k: offset q % BLOCK_SIZE of its block. */
    ghost function ByteAt(k: int, q: int): (v: byte)
      reads inodes, blocks
      requires Mapped(k, q)
    {
      blocks[BlockOf(k, q), q % blockSize]
    }

    /** The contents of every data block, as a value. */
    ghost function Contents(): (d: seq<seq<byte>>)
      reads blocks
      ensures |d| == blocks.Length0
      ensures forall c :: 0 <= c < blocks.Length0 ==> |d[c]| == blocks.Length1
      ensures forall c, i :: 0 <= c < blocks.Length0 && 0 <= i < blocks.Length1 ==> d[c][i] == blocks[c, i]
    {
      seq(blocks.Length0, c requires 0 <= c < blocks.Length0 reads blocks =>
        seq(blocks.Length1, i requires 0 <= i < blocks.Length1 reads blocks => blocks[c, i]))
    }

    /** Mapped, read in a snapshot of the inodes and of the data blocks. */
    ghost predicate MappedIn(nodes: seq<Inode>, data: seq<seq<byte>>, k: int, q: int)
    {
      && blockSize > 0
      && 0 <= k < |nodes| && 0 <= q
      && q / blockSize < |nodes[k].block|
      && 0 <= nodes[k].block[q / blockSize] < |data|
      && q % blockSize < |data[nodes[k].block[q / blockSize]]|
    }

    /** ByteAt, read in a snapshot of the inodes and of the data blocks. */
    ghost function ByteIn(nodes: seq<Inode>, data: seq<seq<byte>>, k: int, q: int): (v: byte)
      requires MappedIn(nodes, data, k, q)
    {
      data[nodes[k].block[q / blockSize]][q % blockSize]
    }

    /** All positions p .. p + n - 1 of inode k lie in allocated blocks. */
    ghost predicate Readable(k: int, p: int, n: int)
      reads inodes
    {
      forall q :: p <= q < p + n ==> Mapped(k, q)
    }

    /** No used data block and no allocated inode is lost: each is reachable from the directory. */
    ghost predicate Accounted()
      reads this, dataBitmap, inodeBitmap, inodes
    {
      BlocksAccounted() && InodesAccounted()
    }

    /** Every used data block is named by a pointer. */
    ghost predicate BlocksAccounted()
      reads dataBitmap, inodes
    {
      BlocksNamed(dataBitmap[..], inodes[..])
    }

    /** Every allocated inode is named by a directory entry. */
    ghost predicate InodesAccounted()
      reads this, inodeBitmap
    {
      InodesNamed(inodeBitmap[..], directory)
    }

    /** Distinct byte positions of files are stored in distinct cells: a file's bytes are
        reachable through no other file and through no other position. */
    lemma CellsDistinct(k1: int, q1: int, k2: int, q2: int)
      requires Valid() && Mapped(k1, q1) && Mapped(k2, q2) && (k1 != k2 || q1 != q2)
      ensures BlockOf(k1, q1) != BlockOf(k2, q2) || q1 % blockSize != q2 % blockSize
    {
      if BlockOf(k1, q1) == BlockOf(k2, q2) && q1 % blockSize == q2 % blockSize {
        assert Exclusive(k1, q1 / blockSize, k2, q2 / blockSize);
        assert k1 == k2 && q1 / blockSize == q2 / blockSize;
        SameSlot(q1, q2, blockSize);
      }
    }

    /** RSFS_init: bitmaps clear, every inode empty, every table entry unused, directory empty.
        (The source's table loop updates copies of the entries; this model starts them unused.) */
    constructor (nDBlocks: nat, nBlockSize: nat, nInodes: nat, nPointer: nat, nOpenFile: nat)
      requires nBlockSize > 0
      ensures Valid()
      ensures numDBlocks == nDBlocks && blockSize == nBlockSize && numInodes == nInodes
      ensures numPointer == nPointer && numOpenFile == nOpenFile
      ensures directory == map[]
      ensures forall b :: 0 <= b < numDBlocks ==> !dataBitmap[b]
      ensures forall k :: 0 <= k < numInodes ==> !inodeBitmap[k] && IsEmpty(inodes[k])
      ensures forall fd :: 0 <= fd < numOpenFile ==> !table[fd].used
      ensures Accounted()
      ensures fresh(dataBitmap) && fresh(blocks) && fresh(inodeBitmap) && fresh(inodes) && fresh(table)
    {
      numDBlocks, blockSize, numInodes, numPointer, numOpenFile := nDBlocks, nBlockSize, nInodes, nPointer, nOpenFile;
      blocks := new byte[nDBlocks, nBlockSize];
      dataBitmap := new bool[nDBlocks](_ => false);
      inodeBitmap := new bool[nInodes](_ => false);
      var empty := Inode(0, seq(nPointer, _ => -1));
      assert IsEmpty(empty);
      inodes := new Inode[nInodes](_ => empty);
      table := new OpenFileEntry[nOpenFile](_ => OpenFileEntry(false, -1, 0, ""));
      directory := map[];
      new;
      assert forall k :: 0 <= k < nInodes ==> inodes[k] == empty;
    }

    /** allocate_data_block */
    method AllocateDataBlock() returns (b: int)
      requires Valid()
      modifies dataBitmap
      ensures Valid()
      ensures b == -1 <==> forall i :: 0 <= i < numDBlocks ==> old(dataBitmap[i])
      ensures b == -1 ==> unchanged(dataBitmap)
      ensures b != -1 ==> 0 <= b < numDBlocks && !old(dataBitmap[b]) && dataBitmap[..] == old(dataBitmap[..])[b := true]
    {
      b := Bitmap.Allocate(dataBitmap);
      forall i | 0 <= i < numDBlocks
        ensures dataBitmap[i] == (old(dataBitmap[i]) || i == b)
      {
        assert dataBitmap[i] == dataBitmap[..][i];
      }
      forall k | 0 <= k < numInodes
        ensures PointersOk(k)
      {
        assert old(PointersOk(k));
      }
    }

    /** allocate_inode; the inode it returns is empty. */
    method AllocateInode() returns (k: int)
      requires Shapes() && FreeInodesEmpty()
      modifies inodeBitmap
      ensures FreeInodesEmpty()
      ensures k == -1 <==> forall i :: 0 <= i < numInodes ==> old(inodeBitmap[i])
      ensures k == -1 ==> unchanged(inodeBitmap)
      ensures k != -1 ==> 0 <= k < numInodes && !old(inodeBitmap[k]) && inodeBitmap[..] == old(inodeBitmap[..])[k := true]
      ensures k != -1 ==> IsEmpty(inodes[k])
    {
      k := Bitmap.Allocate(inodeBitmap);
      forall i | 0 <= i < numInodes
        ensures inodeBitmap[i] == (old(inodeBitmap[i]) || i == k)
      {
        assert inodeBitmap[i] == inodeBitmap[..][i];
      }
      forall j | 0 <= j < numInodes
        ensures FreeInodeEmpty(j)
      {
        assert old(FreeInodeEmpty(j));
      }
      if k != -1 {
        assert old(FreeInodeEmpty(k));
      }
    }

    /** free_inode */
    method FreeInode(k: int)
      requires 0 <= k < inodeBitmap.Length
      modifies inodeBitmap
      ensures inodeBitmap[..] == old(inodeBitmap[..])[k := false]
    {
      Bitmap.Free(inodeBitmap, k);
    }

    /** allocate_open_file_entry, without its blocking reader/writer policy: claims an unused
        slot for the named file at position 0, or returns -1 when every slot is used. */
    method AllocateOpenFileEntry(accessFlag: int, name: string) returns (fd: int)
      requires Valid() && name in directory && directory[name] >= 0
      modifies table
      ensures Valid()
      ensures fd == -1 <==> forall i :: 0 <= i < numOpenFile ==> old(table[i].used)
      ensures fd == -1 ==> unchanged(table)
      ensures fd != -1 ==> 0 <= fd < numOpenFile && !old(table[fd].used)
      ensures fd != -1 ==> table[..] == old(table[..])[fd := OpenFileEntry(true, accessFlag, 0, name)]
    {
      fd := 0;
      while fd < numOpenFile
        invariant 0 <= fd <= numOpenFile
        invariant forall i :: 0 <= i < fd ==> table[i].used
      {
        if !table[fd].used {
          table[fd] := OpenFileEntry(true, accessFlag, 0, name);
          forall j | 0 <= j < numOpenFile
            ensures EntryOk(j)
          {
            assert old(EntryOk(j));
          }
          return;
        }
        fd := fd + 1;
      }
      fd := -1;
    }

    /** `open_file_entry->position = pos` for a used entry. */
    method SetPosition(fd: int, pos: int)
      requires Valid() && InUse(fd) && pos >= 0
      modifies table
      ensures Valid()
      ensures table[..] == old(table[..])[fd := old(table[fd]).(position := pos)]
    {
      table[fd] := table[fd].(position := pos);
      forall j | 0 <= j < numOpenFile
        ensures EntryOk(j)
      {
        assert old(EntryOk(j));
      }
    }

    /** `this_node->length = len` for an allocated inode. */
    method SetLength(k: int, len: int)
      requires Valid() && 0 <= k < numInodes && inodeBitmap[k] && len >= 0
      modifies inodes
      ensures Valid()
      ensures inodes[k] == old(inodes[k]).(length := len)
      ensures forall j :: 0 <= j < numInodes && j != k ==> inodes[j] == old(inodes[j])
      ensures forall k', q {:trigger old(Mapped(k', q))} :: old(Mapped(k', q)) ==> Mapped(k', q) && ByteAt(k', q) == old(ByteAt(k', q))
      ensures old(Accounted()) ==> Accounted()
    {
      inodes[k] := inodes[k].(length := len);
      if old(Accounted()) {
        PointersKeepNamed(dataBitmap[..], old(inodes[..]), inodes[..]);
      }
      forall j | 0 <= j < numInodes
        ensures PointersOk(j)
      {
        assert old(PointersOk(j));
      }
      forall k1, s1, k2, s2 | 0 <= k1 < numInodes && 0 <= k2 < numInodes
        ensures Exclusive(k1, s1, k2, s2)
      {
        assert old(Exclusive(k1, s1, k2, s2));
      }
      forall j | 0 <= j < numInodes
        ensures FreeInodeEmpty(j)
      {
        assert old(FreeInodeEmpty(j));
      }
    }

    /** free_open_file_entry */
    method FreeOpenFileEntry(fd: int)
      requires Valid() && 0 <= fd < numOpenFile
      modifies table
      ensures Valid()
      ensures table[..] == old(table[..])[fd := old(table[fd]).(used := false)]
    {
      table[fd] := table[fd].(used := false);
      forall j | 0 <= j < numOpenFile
        ensures EntryOk(j)
      {
        assert old(EntryOk(j));
      }
    }

    /** `this_node->block[s] = allocate_data_block()`: slot s of inode k receives a fresh data
        block, or -1 when every data block is in use. A block the slot named before is not freed. */
    method ReplaceBlock(k: int, s: int) returns (b: int)
      requires Valid() && 0 <= k < numInodes && inodeBitmap[k] && 0 <= s < numPointer
      modifies inodes, dataBitmap
      ensures Valid()
      ensures b == -1 <==> forall c :: 0 <= c < numDBlocks ==> old(dataBitmap[c])
      ensures b == -1 ==> unchanged(dataBitmap)
      ensures b != -1 ==> 0 <= b < numDBlocks && !old(dataBitmap[b]) && dataBitmap[..] == old(dataBitmap[..])[b := true]
      ensures inodes[k] == old(inodes[k]).(block := old(inodes[k].block)[s := b])
      ensures forall j :: 0 <= j < numInodes && j != k ==> inodes[j] == old(inodes[j])
      ensures forall k', q {:trigger old(Mapped(k', q))} :: old(Mapped(k', q)) && !(k' == k && q / blockSize == s) ==>
                Mapped(k', q) && ByteAt(k', q) == old(ByteAt(k', q))
    {
      b := AllocateDataBlock();
      inodes[k] := inodes[k].(block := inodes[k].block[s := b]);
      forall k', q | old(Mapped(k', q)) && !(k' == k && q / blockSize == s)
        ensures Mapped(k', q) && ByteAt(k', q) == old(ByteAt(k', q))
      {
        assert inodes[k'].block[q / blockSize] == old(inodes[k'].block[q / blockSize]);
      }
      forall j | 0 <= j < numInodes
        ensures PointersOk(j) && FreeInodeEmpty(j)
      {
        assert old(PointersOk(j)) && old(FreeInodeEmpty(j));
      }
      // a fresh block was named by no pointer before
      forall k1, s1, k2, s2 | 0 <= k1 < numInodes && 0 <= k2 < numInodes
        ensures Exclusive(k1, s1, k2, s2)
      {
        assert old(Exclusive(k1, s1, k2, s2)) && old(PointersOk(k1)) && old(PointersOk(k2));
      }
    }

    /** memcpy into the data block that holds position x of inode k: positions x .. x + n - 1,
        all inside that block, receive buf[from ..]. No other byte of any file changes. */
    method CopyChunk(k: int, ghost x: int, slot: int, offset: int, buf: seq<byte>, from: int, n: int)
      requires Shapes() && InodesOk() && Mapped(k, x) && 0 <= n <= blockSize - x % blockSize
      requires slot == x / blockSize && offset == x % blockSize
      requires 0 <= from && from + n <= |buf|
      modifies blocks
      ensures forall q :: x <= q < x + n ==> Mapped(k, q) && ByteAt(k, q) == buf[from + (q - x)]
      ensures forall k', q {:trigger old(Mapped(k', q))} :: old(Mapped(k', q)) && !(k' == k && x <= q < x + n) ==>
                Mapped(k', q) && ByteAt(k', q) == old(ByteAt(k', q))
    {
      var b, off := inodes[k].block[slot], offset;
      CopyToBlock(blocks, b, off, buf, from, n);
      forall k', q | old(Mapped(k', q)) && !(k' == k && x <= q < x + n)
        ensures Mapped(k', q) && ByteAt(k', q) == old(ByteAt(k', q))
      {
        if BlockOf(k', q) == b {
          assert Exclusive(k', q / blockSize, k, x / blockSize);
          assert k' == k && q / blockSize == x / blockSize;
          SameSlot(q, x, blockSize);
        }
        assert !(BlockOf(k', q) == b && off <= q % blockSize < off + n);
      }
      ChunkReadsBack(k, x, buf, from, n);
    }

    /** After bytes buf[from ..] have been stored at offsets x % BLOCK_SIZE .. of the block
        holding position x of inode k, positions x .. x + n - 1 of the file read them back. */
    lemma ChunkReadsBack(k: int, x: int, buf: seq<byte>, from: int, n: int)
      requires Mapped(k, x) && 0 <= n <= blockSize - x % blockSize && 0 <= from && from + n <= |buf|
      requires blocks.Length0 == numDBlocks
      requires forall o :: x % blockSize <= o < x % blockSize + n ==>
                 blocks[BlockOf(k, x), o] == buf[from + (o - x % blockSize)]
      ensures forall q :: x <= q < x + n ==> Mapped(k, q) && ByteAt(k, q) == buf[from + (q - x)]
    {
      forall q | x <= q < x + n
        ensures Mapped(k, q) && ByteAt(k, q) == buf[from + (q - x)]
      {
        SameBlock(x, q - x, blockSize);
        assert BlockOf(k, q) == BlockOf(k, x) && q % blockSize == x % blockSize + (q - x);
      }
    }

    /** RSFS_create: -1 if the name exists (nothing changes); otherwise the name is inserted
        first, then -2 if no inode is free (the name stays, with no inode) or 0 with a fresh,
        empty inode recorded in the new entry. */
    method Create(name: string) returns (r: int)
      requires Valid()
      modifies this, inodeBitmap
      ensures Valid()
      ensures name in old(directory) ==> r == -1 && directory == old(directory) && unchanged(inodeBitmap)
      ensures name !in old(directory) ==>
        && name in directory
        && (r == -2 <==> forall k :: 0 <= k < numInodes ==> old(inodeBitmap[k]))
        && (r == -2 ==> directory == old(directory)[name := -1] && unchanged(inodeBitmap))
        && (r != -2 ==>
              var k := directory[name];
              && r == 0 && 0 <= k < numInodes && !old(inodeBitmap[k])
              && inodeBitmap[..] == old(inodeBitmap[..])[k := true]
              && directory == old(directory)[name := k]
              && IsEmpty(inodes[k]))
      ensures old(Accounted()) ==> Accounted()
    {
      if name in directory {
        return -1;
      }
      InsertDir(name);
      label inserted:
      var inodeNumber := AllocateInode();
      if inodeNumber < 0 {
        return -2;
      }
      forall n | n in directory
        ensures directory[n] != inodeNumber
      {
        assert old@inserted(DirectoryOk()) && !old@inserted(inodeBitmap[inodeNumber]);
      }
      assert inodeBitmap[..][inodeNumber := false] == old@inserted(inodeBitmap[..]);
      SetInodeNumber(name, inodeNumber);
      r := 0;
    }

    /** insert_dir: a new directory entry for a name not yet present, with no inode (-1). */
    method InsertDir(name: string)
      requires Valid() && name !in directory
      modifies this
      ensures Valid()
      ensures directory == old(directory)[name := -1]
      ensures old(InodesAccounted()) ==> InodesAccounted()
    {
      directory := directory[name := -1];
      if old(InodesAccounted()) {
        InsertKeepsNamed(inodeBitmap[..], old(directory), name);
      }
      forall j | 0 <= j < numOpenFile
        ensures EntryOk(j)
      {
        assert old(EntryOk(j));
      }
    }

    /** `dir_entry->inode_number = inode_number` for an entry still without an inode, with an
        allocated inode that no entry names. */
    method SetInodeNumber(name: string, k: int)
      requires Valid() && name in directory && directory[name] == -1
      requires 0 <= k < numInodes && inodeBitmap[k] && forall n :: n in directory ==> directory[n] != k
      modifies this
      ensures Valid()
      ensures directory == old(directory)[name := k]
      ensures InodesNamed(inodeBitmap[..][k := false], old(directory)) ==> InodesAccounted()
    {
      directory := directory[name := k];
      if InodesNamed(inodeBitmap[..][k := false], old(directory)) {
        BindKeepsNamed(inodeBitmap[..], old(directory), name, k);
      }
      forall j | 0 <= j < numOpenFile
        ensures EntryOk(j)
      {
        assert old(EntryOk(j));
      }
    }

    /** RSFS_open: -1 for a flag other than RDONLY and RDWR; otherwise the result of
        allocate_open_file_entry. The source does not check that the name exists. */
    method Open(name: string, accessFlag: int) returns (fd: int)
      requires Valid()
      requires accessFlag == RDONLY || accessFlag == RDWR ==> name in directory && directory[name] >= 0
      modifies table
      ensures Valid()
      ensures accessFlag != RDONLY && accessFlag != RDWR ==> fd == -1 && unchanged(table)
      ensures accessFlag == RDONLY || accessFlag == RDWR ==>
        && (fd == -1 <==> forall i :: 0 <= i < numOpenFile ==> old(table[i].used))
        && (fd == -1 ==> unchanged(table))
        && (fd != -1 ==>
              && 0 <= fd < numOpenFile && !old(table[fd].used)
              && table[..] == old(table[..])[fd := OpenFileEntry(true, accessFlag, 0, name)])
      ensures Accounted() == old(Accounted())
    {
      if accessFlag != RDONLY && accessFlag != RDWR {
        return -1;
      }
      fd := AllocateOpenFileEntry(accessFlag, name);
    }

    /** What RSFS_append needs to stay inside its arrays when it appends size bytes at position
        pos of inode k: every slot it reaches lies below NUM_POINTER, and when the first byte does
        not start a block, it lands in a block the inode already holds. */
    ghost predicate AppendFits(k: int, pos: int, size: int)
      reads inodes
    {
      && blockSize > 0 && pos >= 0
      && var start := AppendStart(pos, blockSize);
         && (start + size - 1) / blockSize < numPointer
         && (start % blockSize != 0 ==> Mapped(k, start))
    }

    /** Against a snapshot (nodes, data) of the inodes and the data blocks: every byte of every
        file that was mapped there is still mapped and unchanged, except, in inode k, the
        positions start .. start + written - 1 and the bytes of the replaced slots lo .. hi - 1. */
    ghost predicate BytesKeptSince(nodes: seq<Inode>, data: seq<seq<byte>>, k: int, start: int, written: int, lo: int, hi: int)
      reads inodes, blocks
    {
      forall k', q {:trigger MappedIn(nodes, data, k', q)} ::
        MappedIn(nodes, data, k', q) && !(k' == k && (start <= q < start + written || lo <= q / blockSize < hi)) ==>
        Mapped(k', q) && ByteAt(k', q) == ByteIn(nodes, data, k', q)
    }

    /** RSFS_append: -1, with nothing changed, for fd out of range, size <= 0 or an entry not
        opened RDWR. Otherwise the bytes go to the file from start = AppendStart(position) on,
        block by block: at every block boundary the slot receives `allocate_data_block()`,
        replacing what it held; when that fails the slot is left at -1 and the count so far is
        returned. The position and the length of the file are not updated, and the entry need not
        be in use. */
    method Append(fd: int, buf: seq<byte>, size: int) returns (r: int)
      requires Valid() && size <= |buf|
      requires 0 <= fd < numOpenFile && size > 0 && table[fd].accessFlag == RDWR ==>
        Named(fd) && AppendFits(EntryInode(fd), table[fd].position, size)
      modifies inodes, dataBitmap, blocks
      ensures Valid()
      ensures !(0 <= fd < numOpenFile && size > 0 && table[fd].accessFlag == RDWR) ==>
        r == -1 && unchanged(inodes, dataBitmap, blocks)
      ensures 0 <= fd < numOpenFile && size > 0 && table[fd].accessFlag == RDWR ==>
        var k, start := EntryInode(fd), AppendStart(table[fd].position, blockSize);
        && 0 <= r <= size
        && inodes[k].length == old(inodes[k].length)
        && (forall j :: 0 <= j < numInodes && j != k ==> inodes[j] == old(inodes[j]))
        && FilledIn(old(inodes[k].block), old(dataBitmap[..]), inodes[k].block,
                    FirstBoundarySlot(start, blockSize), SlotEnd(start, r, blockSize), false, r < size)
        && MarkedIn(old(inodes[k].block), old(dataBitmap[..]), inodes[k].block, dataBitmap[..])
        && (forall q :: start <= q < start + r ==> Mapped(k, q) && ByteAt(k, q) == buf[q - start])
        && (forall k', q {:trigger old(Mapped(k', q))} ::
              old(Mapped(k', q)) &&
              !(k' == k && (start <= q < start + r ||
                            FirstBoundarySlot(start, blockSize) <= q / blockSize < SlotEnd(start, r, blockSize) + (if r < size then 1 else 0))) ==>
              Mapped(k', q) && ByteAt(k', q) == old(ByteAt(k', q)))
        && (r < size ==> (start + r) % blockSize == 0 && !Mapped(k, start + r) && forall c :: 0 <= c < numDBlocks ==> dataBitmap[c])
        && (r == 0 ==> forall c :: 0 <= c < numDBlocks ==> old(dataBitmap[c]))
    {
      if fd < 0 || fd >= numOpenFile || size <= 0 {
        return -1;
      }
      if table[fd].accessFlag != RDWR {
        return -1;
      }
      var pos := table[fd].position;
      var k := EntryInode(fd);
      r := AppendBlocks(k, pos, buf, size);
      ghost var start := AppendStart(pos, blockSize);
      forall k', q | old(Mapped(k', q)) &&
                     !(k' == k && (start <= q < start + r ||
                                   FirstBoundarySlot(start, blockSize) <= q / blockSize < SlotEnd(start, r, blockSize) + (if r < size then 1 else 0)))
        ensures Mapped(k', q) && ByteAt(k', q) == old(ByteAt(k', q))
      {
        assert MappedIn(old(inodes[..]), old(Contents()), k', q);
      }
    }

    /** RSFS_append as its comments describe it: the bytes go to the end of the file, the length
        grows by the count appended, and the position moves to the new end of the file. An
        unused entry is refused like a bad descriptor. This is a seek to the length followed by
        RSFS_write, so only the empty slots among those the new bytes reach receive blocks, and
        exactly those blocks become used. */
    method AppendAtEnd(fd: int, buf: seq<byte>, size: int) returns (r: int)
      requires Valid() && size <= |buf|
      modifies table, inodes, dataBitmap, blocks
      ensures Valid()
      ensures !(old(InUse(fd)) && size > 0 && old(table[fd].accessFlag) == RDWR) ==>
        r == -1 && unchanged(table, inodes, dataBitmap, blocks)
      ensures old(InUse(fd)) && size > 0 && old(table[fd].accessFlag) == RDWR ==>
        var k := old(InodeOf(fd));
        var len := old(inodes[k].length);
        && 0 <= r <= size
        && inodes[k].length == len + r
        && table[..] == old(table[..])[fd := old(table[fd]).(position := len + r)]
        && (forall j :: 0 <= j < numInodes && j != k ==> inodes[j] == old(inodes[j]))
        && FilledIn(old(inodes[k].block), old(dataBitmap[..]), inodes[k].block, len / blockSize, SlotEnd(len, r, blockSize), true, false)
        && MarkedIn(old(inodes[k].block), old(dataBitmap[..]), inodes[k].block, dataBitmap[..])
        && (forall q :: len <= q < len + r ==> Mapped(k, q) && ByteAt(k, q) == buf[q - len])
        && (forall k', q {:trigger old(Mapped(k', q))} :: old(Mapped(k', q)) && !(k' == k && len <= q < len + r) ==>
              Mapped(k', q) && ByteAt(k', q) == old(ByteAt(k', q)))
        && (r < size ==> (len + r) / blockSize >= numPointer || forall c :: 0 <= c < numDBlocks ==> dataBitmap[c])
      ensures old(Accounted()) ==> Accounted()
    {
      if fd < 0 || fd >= numOpenFile || !table[fd].used || size <= 0 {
        return -1;
      }
      if table[fd].accessFlag != RDWR {
        return -1;
      }
      var k := InodeOf(fd);
      ghost var len := inodes[k].length;
      SetPosition(fd, inodes[k].length);
      label seeked:
      r := Write(fd, buf, size);
      forall k', q | old(Mapped(k', q)) && !(k' == k && len <= q < len + r)
        ensures Mapped(k', q) && ByteAt(k', q) == old(ByteAt(k', q))
      {
        assert old@seeked(Mapped(k', q)) && old@seeked(ByteAt(k', q)) == old(ByteAt(k', q));
      }
    }

    /** The loop of RSFS_append for inode k from position pos: everything Append promises. */
    method AppendBlocks(k: int, pos: int, buf: seq<byte>, size: int) returns (bytesAppended: int)
      requires Valid() && 0 <= k < numInodes && inodeBitmap[k] && 0 < size <= |buf| && AppendFits(k, pos, size)
      modifies inodes, dataBitmap, blocks
      ensures Valid()
      ensures 0 <= bytesAppended <= size
      ensures inodes[k].length == old(inodes[k].length)
      ensures forall j :: 0 <= j < numInodes && j != k ==> inodes[j] == old(inodes[j])
      ensures FilledIn(old(inodes[k].block), old(dataBitmap[..]), inodes[k].block,
                       FirstBoundarySlot(AppendStart(pos, blockSize), blockSize),
                       SlotEnd(AppendStart(pos, blockSize), bytesAppended, blockSize), false, bytesAppended < size)
      ensures MarkedIn(old(inodes[k].block), old(dataBitmap[..]), inodes[k].block, dataBitmap[..])
      ensures forall q :: AppendStart(pos, blockSize) <= q < AppendStart(pos, blockSize) + bytesAppended ==>
                Mapped(k, q) && ByteAt(k, q) == buf[q - AppendStart(pos, blockSize)]
      ensures BytesKeptSince(old(inodes[..]), old(Contents()), k, AppendStart(pos, blockSize), bytesAppended,
                             FirstBoundarySlot(AppendStart(pos, blockSize), blockSize),
                             SlotEnd(AppendStart(pos, blockSize), bytesAppended, blockSize) + (if bytesAppended < size then 1 else 0))
      ensures bytesAppended < size ==>
                var end := AppendStart(pos, blockSize) + bytesAppended;
                end % blockSize == 0 && !Mapped(k, end) && forall c :: 0 <= c < numDBlocks ==> dataBitmap[c]
      ensures bytesAppended == 0 ==> forall c :: 0 <= c < numDBlocks ==> old(dataBitmap[c])
    {
      ghost var start := AppendStart(pos, blockSize);
      ghost var lo := FirstBoundarySlot(start, blockSize);
      ghost var ptr0, bits0 := inodes[k].block, dataBitmap[..];
      ghost var nodes0, data0 := inodes[..], Contents();
      var remaining := size;
      var blockNumber := (pos + blockSize - 1) / blockSize;
      var offset := pos % blockSize;
      bytesAppended := 0;
      while remaining > 0
        invariant 0 <= bytesAppended <= size && remaining == size - bytesAppended
        invariant 0 <= offset < blockSize
        invariant offset != 0 ==> bytesAppended == 0 && Mapped(k, start) && blockNumber + 1 == lo
        invariant offset == 0 ==> lo <= blockNumber
        invariant bytesAppended == 0 ==> unchanged(dataBitmap)
        invariant remaining > 0 ==> (start + bytesAppended) / blockSize == blockNumber && (start + bytesAppended) % blockSize == offset
        invariant blockNumber == SlotEnd(start, bytesAppended, blockSize)
        invariant Valid()
        invariant inodes[k].length == old(inodes[k].length)
        invariant forall j :: 0 <= j < numInodes && j != k ==> inodes[j] == old(inodes[j])
        invariant FilledIn(ptr0, bits0, inodes[k].block, lo, blockNumber, false, false)
        invariant MarkedIn(ptr0, bits0, inodes[k].block, dataBitmap[..])
        invariant forall q :: start <= q < start + bytesAppended ==> Mapped(k, q) && ByteAt(k, q) == buf[q - start]
        invariant BytesKeptSince(nodes0, data0, k, start, bytesAppended, lo, blockNumber)
      {
        var n := Min(remaining, blockSize - offset);
        ghost var x := start + bytesAppended;
        DivMonotone(x, start + size - 1, blockSize);
        var ok := AppendStep(k, x, blockNumber, offset, buf, bytesAppended, n, start, lo, ptr0, bits0, nodes0, data0);
        if !ok {
          if bytesAppended == 0 {
            forall c | 0 <= c < numDBlocks
              ensures old(dataBitmap[c])
            {
              assert dataBitmap[c];
            }
          }
          return;
        }
        bytesAppended, remaining := bytesAppended + n, remaining - n;
        offset := 0;
        blockNumber := blockNumber + 1;
      }
    }

    /** One pass of the loop of RSFS_append at position x = start + from of inode k, where
        positions start .. x - 1 already hold buf[.. from]: at a block boundary the slot of x
        receives `allocate_data_block()` (ok is false when none is free, and the slot is left
        at -1); then n bytes of buf from index `from` are copied to x .. x + n - 1. Against the
        snapshot (ptr0, bits0) taken when the loop began, the slots lo .. slot are now replaced
        (or slot holds -1) and the bitmap stays exact. */
    method AppendStep(k: int, ghost x: int, slot: int, offset: int, buf: seq<byte>, from: int, n: int, ghost start: int,
                      ghost lo: int, ghost ptr0: seq<int>, ghost bits0: seq<bool>, ghost nodes0: seq<Inode>, ghost data0: seq<seq<byte>>)
      returns (ok: bool)
      requires Valid() && 0 <= k < numInodes && inodeBitmap[k]
      requires 0 <= start <= x && x == start + from && x / blockSize < numPointer && 0 <= n <= blockSize - x % blockSize
      requires slot == x / blockSize && offset == x % blockSize
      requires offset != 0 ==> Mapped(k, x) && slot + 1 == lo
      requires offset == 0 ==> lo <= slot
      requires from + n <= |buf|
      requires forall q :: start <= q < x ==> Mapped(k, q) && ByteAt(k, q) == buf[q - start]
      requires FilledIn(ptr0, bits0, inodes[k].block, lo, slot, false, false)
      requires MarkedIn(ptr0, bits0, inodes[k].block, dataBitmap[..])
      requires BytesKeptSince(nodes0, data0, k, start, from, lo, slot)
      modifies inodes, dataBitmap, blocks
      ensures Valid()
      ensures inodes[k].length == old(inodes[k].length)
      ensures forall j :: 0 <= j < numInodes && j != k ==> inodes[j] == old(inodes[j])
      ensures ok ==> FilledIn(ptr0, bits0, inodes[k].block, lo, slot + 1, false, false)
      ensures !ok ==> FilledIn(ptr0, bits0, inodes[k].block, lo, slot, false, true)
      ensures MarkedIn(ptr0, bits0, inodes[k].block, dataBitmap[..])
      ensures !ok ==> x % blockSize == 0 && !Mapped(k, x) && forall c :: 0 <= c < numDBlocks ==> dataBitmap[c]
      ensures !ok ==> unchanged(dataBitmap)
      ensures forall q :: start <= q < (if ok then x + n else x) ==> Mapped(k, q) && ByteAt(k, q) == buf[q - start]
      ensures BytesKeptSince(nodes0, data0, k, start, if ok then from + n else from, lo, slot + 1)
      ensures ok && n > 0 ==> SlotEnd(start, from + n, blockSize) == slot + 1
      ensures ok && n == blockSize - offset ==> (x + n) / blockSize == slot + 1 && (x + n) % blockSize == 0
    {
      StepEnds(start, from, n, blockSize);
      ghost var ptr, bits := inodes[k].block, dataBitmap[..];
      ok := AppendChunk(k, x, slot, offset, buf, from, n, start, lo, nodes0, data0);
      assert inodes[k].block == ptr[slot := inodes[k].block[slot]];
      if offset != 0 || !ok {
        assert dataBitmap[..] == bits;
      }
      if ok {
        FillStep(ptr0, bits0, ptr, bits, lo, slot, false, inodes[k].block[slot]);
      } else {
        FillFails(ptr0, bits0, ptr, bits, lo, slot);
      }
    }

    /** StoreChunk as one pass of the loop of RSFS_append calls it, with the slot replaced
        exactly at a block boundary: positions start .. x - 1 that already held buf[.. from]
        still do. */
    method AppendStore(k: int, ghost x: int, slot: int, offset: int, buf: seq<byte>, from: int, n: int, ghost start: int)
      returns (ok: bool)
      requires Valid() && 0 <= k < numInodes && inodeBitmap[k]
      requires 0 <= start <= x && x == start + from && x / blockSize < numPointer && 0 <= n <= blockSize - x % blockSize
      requires slot == x / blockSize && offset == x % blockSize
      requires offset != 0 ==> Mapped(k, x)
      requires from + n <= |buf|
      requires forall q :: start <= q < x ==> Mapped(k, q) && ByteAt(k, q) == buf[q - start]
      modifies inodes, dataBitmap, blocks
      ensures Valid()
      ensures forall j :: 0 <= j < numInodes && j != k ==> inodes[j] == old(inodes[j])
      ensures inodes[k] == old(inodes[k]).(block := old(inodes[k].block)[slot := inodes[k].block[slot]])
      ensures offset != 0 ==> ok && unchanged(inodes, dataBitmap)
      ensures offset == 0 && ok ==>
        var b := inodes[k].block[slot];
        0 <= b < numDBlocks && !old(dataBitmap[b]) && dataBitmap[..] == old(dataBitmap[..])[b := true]
      ensures !ok ==> offset == 0 && inodes[k].block[slot] == -1 && unchanged(dataBitmap, blocks)
      ensures !ok ==> forall c :: 0 <= c < numDBlocks ==> dataBitmap[c]
      ensures forall q :: start <= q < (if ok then x + n else x) ==> Mapped(k, q) && ByteAt(k, q) == buf[q - start]
      ensures forall k', q {:trigger old(Mapped(k', q))} ::
                old(Mapped(k', q)) && !(ok && k' == k && x <= q < x + n) && !(offset == 0 && k' == k && q / blockSize == slot)
                ==> Mapped(k', q) && ByteAt(k', q) == old(ByteAt(k', q))
    {
      assert PointersOk(k);
      ok := StoreChunk(k, x, slot, offset, offset == 0, buf, from, n, start);
      DivMonotone(start, x, blockSize);
      forall q | start <= q < (if ok then x + n else x)
        ensures Mapped(k, q) && ByteAt(k, q) == buf[q - start]
      {
        if q < x {
          if x % blockSize == 0 {
            BeforeBoundary(q, x, blockSize);
          }
          assert old(Mapped(k, q)) && old(ByteAt(k, q)) == buf[q - start];
        }
      }
    }

    /** The storing half of one pass of the loop of RSFS_append: the slot of x is replaced at a
        block boundary, then the bytes are copied. Against the snapshot (nodes0, data0) taken when
        the loop began, every byte outside the positions written so far and outside the slots
        replaced so far (lo .. slot, slot itself only when replaced) keeps its value. */
    method AppendChunk(k: int, ghost x: int, slot: int, offset: int, buf: seq<byte>, from: int, n: int, ghost start: int, ghost lo: int,
                       ghost nodes0: seq<Inode>, ghost data0: seq<seq<byte>>)
      returns (ok: bool)
      requires Valid() && 0 <= k < numInodes && inodeBitmap[k]
      requires 0 <= start <= x && x == start + from && x / blockSize < numPointer && 0 <= n <= blockSize - x % blockSize
      requires slot == x / blockSize && offset == x % blockSize
      requires offset != 0 ==> Mapped(k, x)
      requires from + n <= |buf|
      requires forall q :: start <= q < x ==> Mapped(k, q) && ByteAt(k, q) == buf[q - start]
      requires offset == 0 ==> lo <= slot
      requires BytesKeptSince(nodes0, data0, k, start, from, lo, slot)
      modifies inodes, dataBitmap, blocks
      ensures Valid()
      ensures inodes[k] == old(inodes[k]).(block := old(inodes[k].block)[slot := inodes[k].block[slot]])
      ensures forall j :: 0 <= j < numInodes && j != k ==> inodes[j] == old(inodes[j])
      ensures offset != 0 ==> ok && inodes[k].block[slot] == old(inodes[k].block[slot]) && unchanged(dataBitmap)
      ensures offset == 0 && ok ==>
        var b := inodes[k].block[slot];
        FreshIn(old(dataBitmap[..]), b) && old(inodes[k].block[slot]) != b && dataBitmap[..] == old(dataBitmap[..])[b := true]
      ensures !ok ==> offset == 0 && inodes[k].block[slot] == -1 && unchanged(dataBitmap)
      ensures !ok ==> !Mapped(k, x) && forall c :: 0 <= c < numDBlocks ==> dataBitmap[c]
      ensures forall q :: start <= q < (if ok then x + n else x) ==> Mapped(k, q) && ByteAt(k, q) == buf[q - start]
      ensures BytesKeptSince(nodes0, data0, k, start, if ok then from + n else from, lo, slot + 1)
    {
      assert PointersOk(k);
      ok := AppendStore(k, x, slot, offset, buf, from, n, start);
      ghost var written := if ok then from + n else from;
      forall k', q | MappedIn(nodes0, data0, k', q) && !(k' == k && (start <= q < start + written || lo <= q / blockSize < slot + 1))
        ensures Mapped(k', q) && ByteAt(k', q) == ByteIn(nodes0, data0, k', q)
      {
        assert old(Mapped(k', q)) && old(ByteAt(k', q)) == ByteIn(nodes0, data0, k', q);
      }
    }

    /** RSFS_fseek: -1 for a bad descriptor; an offset outside [0, length] leaves the position
        and returns it; otherwise the position becomes offset, which is returned. */
    method Fseek(fd: int, offset: int) returns (r: int)
      requires Valid()
      modifies table
      ensures Valid()
      ensures !old(InUse(fd)) ==> r == -1 && unchanged(table)
      ensures old(InUse(fd)) ==>
        var p, len := old(table[fd].position), inodes[old(InodeOf(fd))].length;
        if 0 <= offset <= len then
          r == offset && table[..] == old(table[..])[fd := old(table[fd]).(position := offset)]
        else
          r == p && unchanged(table)
      ensures Accounted() == old(Accounted())
    {
      if fd < 0 || fd >= numOpenFile || !table[fd].used {
        return -1;
      }
      var pos := table[fd].position;
      var fileLength := inodes[InodeOf(fd)].length;
      if offset < 0 || offset > fileLength {
        return pos;
      }
      SetPosition(fd, offset);
      r := table[fd].position;
    }

    /** RSFS_read: -1 for a bad descriptor or a negative size; otherwise copies
        min(size, length - position) bytes from the position on, advances the position by that
        count and returns it. When another descriptor has cut the file below this position the
        count is negative: nothing is copied and the position moves back to the length. */
    method Read(fd: int, size: int) returns (r: int, out: seq<byte>)
      requires Valid()
      requires InUse(fd) && size >= 0 ==>
        Readable(InodeOf(fd), table[fd].position, Min(size, inodes[InodeOf(fd)].length - table[fd].position))
      modifies table
      ensures Valid()
      ensures !old(InUse(fd)) || size < 0 ==> r == -1 && out == [] && unchanged(table)
      ensures old(InUse(fd)) && size >= 0 ==>
        var k, p := old(InodeOf(fd)), old(table[fd].position);
        && r == Min(size, inodes[k].length - p)
        && table[..] == old(table[..])[fd := old(table[fd]).(position := p + r)]
        && |out| == Max(r, 0)
        && forall j :: 0 <= j < |out| ==> Mapped(k, p + j) && out[j] == ByteAt(k, p + j)
      ensures Accounted() == old(Accounted())
    {
      if fd < 0 || fd >= numOpenFile || !table[fd].used || size < 0 {
        return -1, [];
      }
      var k := InodeOf(fd);
      out := ReadBytes(k, table[fd].position, Min(size, inodes[k].length - table[fd].position));
      var bytesRead := Min(size, inodes[k].length - table[fd].position);
      assert EntryOk(fd);
      SetPosition(fd, table[fd].position + bytesRead);
      r := bytesRead;
    }

    /** The loop of RSFS_read: byte i of the result is byte p + i of inode k, for i below count
        (no bytes when count is not positive). */
    method ReadBytes(k: int, p: int, count: int) returns (out: seq<byte>)
      requires 0 <= k < inodes.Length && Readable(k, p, count)
      ensures |out| == Max(count, 0)
      ensures forall j :: 0 <= j < |out| ==> Mapped(k, p + j) && out[j] == ByteAt(k, p + j)
    {
      out := [];
      var i := 0;
      while i < count
        invariant 0 <= i <= Max(count, 0) && |out| == i
        invariant forall j :: 0 <= j < i ==> Mapped(k, p + j) && out[j] == ByteAt(k, p + j)
      {
        assert Mapped(k, p + i) && i + p == p + i;
        var block := (i + p) / blockSize;
        var offset := (i + p) % blockSize;
        out := out + [blocks[inodes[k].block[block], offset]];
        i := i + 1;
      }
    }

    /** One pass of the loops of RSFS_write and RSFS_append, for slot x / BLOCK_SIZE of inode k:
        when `allocate` is set the slot first receives `allocate_data_block()` (ok is false, and
        nothing changes, when no data block is free); then buf[from ..] is copied to positions
        x .. x + n - 1, which all lie in that slot's block. No other byte of any file changes,
        except those of a block the slot named before it was replaced. */
    method StoreChunk(k: int, ghost x: int, slot: int, offset: int, allocate: bool, buf: seq<byte>, from: int, n: int,
                      ghost base: int)
      returns (ok: bool)
      requires Valid() && 0 <= k < numInodes && inodeBitmap[k]
      requires 0 <= x && x / blockSize < numPointer && 0 <= n <= blockSize - x % blockSize
      requires slot == x / blockSize && offset == x % blockSize
      requires allocate || inodes[k].block[x / blockSize] >= 0
      requires 0 <= from && from + n <= |buf| && x == base + from
      modifies inodes, dataBitmap, blocks
      ensures Valid()
      ensures forall j :: 0 <= j < numInodes && j != k ==> inodes[j] == old(inodes[j])
      ensures inodes[k] == old(inodes[k]).(block := old(inodes[k].block)[x / blockSize := inodes[k].block[x / blockSize]])
      ensures !allocate ==> ok && unchanged(inodes, dataBitmap)
      ensures allocate && ok ==>
        var b := inodes[k].block[x / blockSize];
        0 <= b < numDBlocks && !old(dataBitmap[b]) && dataBitmap[..] == old(dataBitmap[..])[b := true]
      ensures !ok ==> allocate && inodes[k].block[x / blockSize] == -1 && unchanged(dataBitmap, blocks)
      ensures !ok ==> forall c :: 0 <= c < numDBlocks ==> dataBitmap[c]
      ensures ok ==> forall q :: x <= q < x + n ==> Mapped(k, q) && ByteAt(k, q) == buf[q - base]
      ensures forall k', q {:trigger old(Mapped(k', q))} ::
                old(Mapped(k', q)) && !(ok && k' == k && x <= q < x + n) && !(allocate && k' == k && q / blockSize == x / blockSize)
                ==> Mapped(k', q) && ByteAt(k', q) == old(ByteAt(k', q))
    {
      if allocate {
        var b := ReplaceBlock(k, slot);
        if b == -1 {
          return false;
        }
      }
      label replaced:
      assert PointersOk(k);
      CopyChunk(k, x, slot, offset, buf, from, n);
      ok := true;
      forall k', q | old(Mapped(k', q)) && !(k' == k && x <= q < x + n) && !(allocate && k' == k && q / blockSize == x / blockSize)
        ensures Mapped(k', q) && ByteAt(k', q) == old(ByteAt(k', q))
      {
        assert old@replaced(Mapped(k', q)) && old@replaced(ByteAt(k', q)) == old(ByteAt(k', q));
      }
    }

    /** One pass of the loop of RSFS_write, at the position x of descriptor fd on inode k: a slot
        holding -1 first receives a fresh data block (ok is false, and nothing changes, when none
        is free); then n bytes of buf from index `from` are copied in and the position advances
        by n. Against the snapshot (ptr0, bits0) taken when the loop began, the empty slots
        lo .. slot are now filled and the bitmap stays exact. */
    method WriteStep(fd: int, k: int, ghost x: int, slot: int, offset: int, buf: seq<byte>, from: int, n: int,
                     ghost base: int, ghost ptr0: seq<int>, ghost bits0: seq<bool>, ghost lo: int)
      returns (ok: bool)
      requires Valid() && InUse(fd) && k == InodeOf(fd) && x == table[fd].position
      requires 0 <= x && x / blockSize < numPointer && 0 <= n <= blockSize - x % blockSize
      requires slot == x / blockSize && offset == x % blockSize && lo <= slot
      requires 0 <= from && from + n <= |buf| && x == base + from
      requires FilledIn(ptr0, bits0, inodes[k].block, lo, slot, true, false)
      requires MarkedIn(ptr0, bits0, inodes[k].block, dataBitmap[..])
      requires forall q :: base <= q < x ==> Mapped(k, q) && ByteAt(k, q) == buf[q - base]
      modifies table, inodes, dataBitmap, blocks
      ensures Valid()
      ensures ok ==> table[..] == old(table[..])[fd := old(table[fd]).(position := x + n)]
      ensures !ok ==> unchanged(table, dataBitmap, blocks)
      ensures !ok ==> forall j :: 0 <= j < numInodes ==> inodes[j] == old(inodes[j])
      ensures !ok ==> forall c :: 0 <= c < numDBlocks ==> dataBitmap[c]
      ensures inodes[k].length == old(inodes[k].length)
      ensures forall j :: 0 <= j < numInodes && j != k ==> inodes[j] == old(inodes[j])
      ensures ok ==> FilledIn(ptr0, bits0, inodes[k].block, lo, slot + 1, true, false)
      ensures ok ==> MarkedIn(ptr0, bits0, inodes[k].block, dataBitmap[..])
      ensures forall q :: base <= q < (if ok then x + n else x) ==> Mapped(k, q) && ByteAt(k, q) == buf[q - base]
      ensures forall k', q {:trigger old(Mapped(k', q))} :: old(Mapped(k', q)) && !(ok && k' == k && x <= q < x + n) ==>
                Mapped(k', q) && ByteAt(k', q) == old(ByteAt(k', q))
    {
      assert PointersOk(k);
      ghost var ptr, bits := inodes[k].block, dataBitmap[..];
      var allocate := inodes[k].block[slot] < 0;
      ok := StoreChunk(k, x, slot, offset, allocate, buf, from, n, base);
      forall q | base <= q < x
        ensures Mapped(k, q) && ByteAt(k, q) == buf[q - base]
      {
        assert old(Mapped(k, q)) && old(ByteAt(k, q)) == buf[q - base];
      }
      if !ok {
        assert inodes[k].block == ptr;
        return;
      }
      FillStep(ptr0, bits0, ptr, bits, lo, slot, true, inodes[k].block[slot]);
      assert inodes[k].block == ptr[slot := inodes[k].block[slot]];
      SetPosition(fd, table[fd].position + n);
    }

    /** RSFS_write: -1 for a bad descriptor or a negative size. Otherwise, from the position p on
        and for up to size bytes, every slot it reaches that holds -1 receives a fresh data block
        and buf is copied in, block by block, the position advancing with every block; the loop
        stops early at the last pointer or when no data block is free. The length grows to the
        new position if that lies beyond it, and the count r of bytes written is returned.
        Exactly the empty slots among those holding positions p .. p + r - 1 receive blocks, and
        exactly those blocks become used. */
    method Write(fd: int, buf: seq<byte>, size: int) returns (r: int)
      requires Valid()
      requires size <= |buf|
      modifies table, inodes, dataBitmap, blocks
      ensures Valid()
      ensures !old(InUse(fd)) || size < 0 ==> r == -1 && unchanged(table, inodes, dataBitmap, blocks)
      ensures old(InUse(fd)) && size >= 0 ==>
        var k, p := old(InodeOf(fd)), old(table[fd].position);
        && 0 <= r <= size
        && table[..] == old(table[..])[fd := old(table[fd]).(position := p + r)]
        && inodes[k].length == Max(old(inodes[k].length), p + r)
        && (forall j :: 0 <= j < numInodes && j != k ==> inodes[j] == old(inodes[j]))
        && FilledIn(old(inodes[k].block), old(dataBitmap[..]), inodes[k].block, p / blockSize, SlotEnd(p, r, blockSize), true, false)
        && MarkedIn(old(inodes[k].block), old(dataBitmap[..]), inodes[k].block, dataBitmap[..])
        && (forall q :: p <= q < p + r ==> Mapped(k, q) && ByteAt(k, q) == buf[q - p])
        && (forall k', q {:trigger old(Mapped(k', q))} :: old(Mapped(k', q)) && !(k' == k && p <= q < p + r) ==>
              Mapped(k', q) && ByteAt(k', q) == old(ByteAt(k', q)))
        && (r < size ==> (p + r) / blockSize >= numPointer || forall c :: 0 <= c < numDBlocks ==> dataBitmap[c])
      ensures old(Accounted()) ==> Accounted()
    {
      if fd < 0 || fd >= numOpenFile || !table[fd].used || size < 0 {
        return -1;
      }
      var k := InodeOf(fd);
      ghost var p := table[fd].position;
      r := WriteBlocks(fd, k, buf, size);
      label written:
      ghost var ptr, bits := inodes[k].block, dataBitmap[..];
      if table[fd].position > inodes[k].length {
        SetLength(k, table[fd].position);
      }
      assert inodes[k].block == ptr && dataBitmap[..] == bits;
      forall q | p <= q < p + r
        ensures Mapped(k, q) && ByteAt(k, q) == buf[q - p]
      {
        assert old@written(Mapped(k, q));
      }
      if old(Accounted()) {
        FillKeepsNamed(old(dataBitmap[..]), old(inodes[..]), dataBitmap[..], inodes[..], k, p / blockSize, SlotEnd(p, r, blockSize));
      }
    }

    /** The loop of RSFS_write, for descriptor fd on inode k: the count r of bytes written, with
        everything Write promises except the length, which the loop leaves alone. */
    method WriteBlocks(fd: int, k: int, buf: seq<byte>, size: int) returns (bytesWritten: int)
      requires Valid() && InUse(fd) && k == InodeOf(fd) && 0 <= size <= |buf|
      modifies table, inodes, dataBitmap, blocks
      ensures Valid()
      ensures 0 <= bytesWritten <= size
      ensures table[..] == old(table[..])[fd := old(table[fd]).(position := old(table[fd].position) + bytesWritten)]
      ensures inodes[k].length == old(inodes[k].length)
      ensures forall j :: 0 <= j < numInodes && j != k ==> inodes[j] == old(inodes[j])
      ensures FilledIn(old(inodes[k].block), old(dataBitmap[..]), inodes[k].block,
                       old(table[fd].position) / blockSize, SlotEnd(old(table[fd].position), bytesWritten, blockSize), true, false)
      ensures MarkedIn(old(inodes[k].block), old(dataBitmap[..]), inodes[k].block, dataBitmap[..])
      ensures forall q :: old(table[fd].position) <= q < old(table[fd].position) + bytesWritten ==>
                Mapped(k, q) && ByteAt(k, q) == buf[q - old(table[fd].position)]
      ensures forall k', q {:trigger old(Mapped(k', q))} ::
                old(Mapped(k', q)) && !(k' == k && old(table[fd].position) <= q < old(table[fd].position) + bytesWritten) ==>
                Mapped(k', q) && ByteAt(k', q) == old(ByteAt(k', q))
      ensures bytesWritten < size ==>
                (old(table[fd].position) + bytesWritten) / blockSize >= numPointer || forall c :: 0 <= c < numDBlocks ==> dataBitmap[c]
    {
      assert EntryOk(fd);
      ghost var p := table[fd].position;
      ghost var ptr0, bits0 := inodes[k].block, dataBitmap[..];
      var remaining, bufferOffset := size, 0;
      bytesWritten := 0;
      var startBlock, startOffset := table[fd].position / blockSize, table[fd].position % blockSize;
      var i := startBlock;
      while i < numPointer && remaining != 0
        invariant i == startBlock || startBlock < i <= numPointer
        invariant 0 <= bytesWritten <= size && remaining == size - bytesWritten && bufferOffset == bytesWritten
        invariant 0 <= startOffset < blockSize
        invariant remaining != 0 ==> (p + bytesWritten) / blockSize == i && (p + bytesWritten) % blockSize == startOffset
        invariant i == SlotEnd(p, bytesWritten, blockSize)
        invariant Valid() && InUse(fd) && k == InodeOf(fd)
        invariant table[..] == old(table[..])[fd := old(table[fd]).(position := p + bytesWritten)]
        invariant inodes[k].length == old(inodes[k].length)
        invariant forall j :: 0 <= j < numInodes && j != k ==> inodes[j] == old(inodes[j])
        invariant FilledIn(ptr0, bits0, inodes[k].block, startBlock, i, true, false)
        invariant MarkedIn(ptr0, bits0, inodes[k].block, dataBitmap[..])
        invariant forall q :: p <= q < p + bytesWritten ==> Mapped(k, q) && ByteAt(k, q) == buf[q - p]
        invariant forall k', q {:trigger old(Mapped(k', q))} :: old(Mapped(k', q)) && !(k' == k && p <= q < p + bytesWritten) ==>
                    Mapped(k', q) && ByteAt(k', q) == old(ByteAt(k', q))
        decreases numPointer - i
      {
        var n := Min(remaining, blockSize - startOffset);
        var ok := WriteStep(fd, k, table[fd].position, i, startOffset, buf, bufferOffset, n, p, ptr0, bits0, startBlock);
        if !ok {
          break;
        }
        StepEnds(p, bytesWritten, n, blockSize);
        bytesWritten, remaining, bufferOffset := bytesWritten + n, remaining - n, bufferOffset + n;
        startOffset := 0;
        i := i + 1;
      }
    }

    /** RSFS_close: -1 for a bad descriptor; otherwise the entry is released and 0 returned. */
    method Close(fd: int) returns (r: int)
      requires Valid()
      modifies table
      ensures Valid()
      ensures !old(InUse(fd)) ==> r == -1 && unchanged(table)
      ensures old(InUse(fd)) ==> r == 0 && table[..] == old(table[..])[fd := old(table[fd]).(used := false)]
      ensures Accounted() == old(Accounted())
    {
      if fd < 0 || fd >= numOpenFile || !table[fd].used {
        return -1;
      }
      FreeOpenFileEntry(fd);
      r := 0;
    }

    /** RSFS_cut: -1 for a bad descriptor or size <= 0; otherwise the length becomes
        position + size (no block is freed or allocated) and size is returned. The position
        never exceeds the new length, so the source's clamp of the position does not fire. */
    method Cut(fd: int, size: int) returns (r: int)
      requires Valid()
      modifies inodes
      ensures Valid()
      ensures !old(InUse(fd)) || size <= 0 ==> r == -1 && unchanged(inodes)
      ensures old(InUse(fd)) && size > 0 ==>
        var k, p := old(InodeOf(fd)), table[fd].position;
        && r == size
        && inodes[k] == old(inodes[k]).(length := p + size)
        && p <= inodes[k].length
        && forall j :: 0 <= j < numInodes && j != k ==> inodes[j] == old(inodes[j])
      ensures old(Accounted()) ==> Accounted()
    {
      if fd < 0 || fd >= numOpenFile || !table[fd].used || size <= 0 {
        return -1;
      }
      var pos := table[fd].position;
      var k := InodeOf(fd);
      var newPos := pos + size;
      assert EntryOk(fd);
      SetLength(k, newPos);
      r := size;
    }

    /** The scan of RSFS_delete: does any used open-file entry refer to inode k? */
    method FileIsOpen(k: int) returns (isOpen: bool)
      requires Valid()
      ensures isOpen <==> HasOpenEntry(k)
    {
      var i := 0;
      while i < numOpenFile
        invariant 0 <= i <= numOpenFile
        invariant forall j :: 0 <= j < i && table[j].used ==> InodeOf(j) != k
      {
        if table[i].used {
          if InodeOf(i) == k {
            assert EntryOk(i);
            return true;
          }
        }
        i := i + 1;
      }
      isOpen := false;
    }

    /** One step of the block-freeing loop of RSFS_delete: when pointer s of inode k names a
        used block, that block is cleared in the data bitmap and the pointer reset to -1.
        Under the invariant a pointer is -1 or names a used block, so afterwards it is -1. */
    method ReleaseSlot(k: int, s: int)
      requires Valid() && 0 <= k < numInodes && 0 <= s < numPointer
      modifies inodes, dataBitmap
      ensures Valid()
      ensures inodes[k] == old(inodes[k]).(block := old(inodes[k].block)[s := -1])
      ensures forall c :: 0 <= c < numDBlocks ==> dataBitmap[c] == (old(dataBitmap[c]) && c != old(inodes[k].block[s]))
      ensures forall j :: 0 <= j < numInodes && j != k ==> inodes[j] == old(inodes[j])
    {
      var b := inodes[k].block[s];
      assert PointersOk(k);
      if b >= 0 && dataBitmap[b] {
        dataBitmap[b] := false;
        inodes[k] := inodes[k].(block := inodes[k].block[s := -1]);
      }
      assert inodes[k].block == old(inodes[k].block)[s := -1];
      // the cleared block was named by no other pointer
      forall j | 0 <= j < numInodes
        ensures PointersOk(j) && FreeInodeEmpty(j)
      {
        assert old(PointersOk(j)) && old(FreeInodeEmpty(j));
        forall t | 0 <= t < numPointer
          ensures inodes[j].block[t] == -1 || (0 <= inodes[j].block[t] < numDBlocks && dataBitmap[inodes[j].block[t]])
        {
          assert old(Exclusive(k, s, j, t));
        }
      }
      forall k1, s1, k2, s2 | 0 <= k1 < numInodes && 0 <= k2 < numInodes
        ensures Exclusive(k1, s1, k2, s2)
      {
        assert old(Exclusive(k1, s1, k2, s2));
      }
    }

    /** The block-freeing loop of RSFS_delete: every block of inode k is cleared in the data
        bitmap and every pointer reset to -1; the length is left for the caller. */
    method ReleaseBlocks(k: int)
      requires Valid() && 0 <= k < numInodes
      modifies inodes, dataBitmap
      ensures Valid()
      ensures inodes[k] == Inode(old(inodes[k].length), seq(numPointer, _ => -1))
      ensures forall b :: 0 <= b < numDBlocks ==> dataBitmap[b] == (old(dataBitmap[b]) && b !in old(inodes[k].block))
      ensures forall j :: 0 <= j < numInodes && j != k ==> inodes[j] == old(inodes[j])
    {
      var i := 0;
      while i < numPointer
        invariant 0 <= i <= numPointer
        invariant Valid()
        invariant inodes[k].length == old(inodes[k].length)
        invariant forall s :: 0 <= s < i ==> inodes[k].block[s] == -1
        invariant forall s :: i <= s < numPointer ==> inodes[k].block[s] == old(inodes[k].block[s])
        invariant forall j :: 0 <= j < numInodes && j != k ==> inodes[j] == old(inodes[j])
        invariant forall b :: 0 <= b < numDBlocks ==> dataBitmap[b] == (old(dataBitmap[b]) && b !in old(inodes[k].block[..i]))
      {
        ghost var b := inodes[k].block[i];
        ReleaseSlot(k, i);
        forall c | 0 <= c < numDBlocks
          ensures dataBitmap[c] == (old(dataBitmap[c]) && c !in old(inodes[k].block[..i + 1]))
        {
          assert old(inodes[k].block[..i + 1]) == old(inodes[k].block[..i]) + [b];
          assert dataBitmap[c] == dataBitmap[..][c];
        }
        i := i + 1;
      }
      assert old(inodes[k].block[..numPointer]) == old(inodes[k].block);
      assert inodes[k].block == seq(numPointer, _ => -1);
    }

    /** RSFS_delete: -1 if the name is absent or its file is open (nothing changes); otherwise
        every block of its inode is freed and the pointer reset, the length reset, the inode
        freed and the name removed. Other inodes are untouched. */
    method Delete(name: string) returns (r: int)
      requires Valid()
      requires name in directory ==> directory[name] >= 0
      modifies this, inodes, dataBitmap, inodeBitmap
      ensures Valid()
      ensures name !in old(directory) || old(HasOpenEntry(directory[name])) ==>
        r == -1 && directory == old(directory) && unchanged(inodes, dataBitmap, inodeBitmap)
      ensures name in old(directory) && !old(HasOpenEntry(directory[name])) ==>
        var k := old(directory[name]);
        && r == 0
        && directory == old(directory) - {name}
        && IsEmpty(inodes[k])
        && inodeBitmap[..] == old(inodeBitmap[..])[k := false]
        && (forall b :: 0 <= b < numDBlocks ==> dataBitmap[b] == (old(dataBitmap[b]) && b !in old(inodes[k].block)))
        && (forall j :: 0 <= j < numInodes && j != k ==> inodes[j] == old(inodes[j]))
      ensures old(Accounted()) ==> Accounted()
    {
      if name !in directory {
        return -1;
      }
      var k := directory[name];
      var isOpen := FileIsOpen(k);
      if isOpen {
        return -1;
      }
      ReleaseBlocks(k);
      Unlink(name);
      r := 0;
      if old(Accounted()) {
        ReleaseKeepsNamed(old(dataBitmap[..]), old(inodes[..]), dataBitmap[..], inodes[..], k);
        UnbindKeepsNamed(old(inodeBitmap[..]), old(directory), name);
      }
    }

    /** The tail of RSFS_delete once the blocks of the file are released: its length is reset,
        its inode freed and its name removed from the directory. */
    method Unlink(name: string)
      requires Valid() && name in directory && 0 <= directory[name] < numInodes
      requires !HasOpenEntry(directory[name])
      requires forall s :: 0 <= s < numPointer ==> inodes[directory[name]].block[s] == -1
      modifies this, inodes, inodeBitmap
      ensures Valid()
      ensures directory == old(directory) - {name}
      ensures var k := old(directory[name]);
        && inodes[k] == old(inodes[k]).(length := 0)
        && inodeBitmap[..] == old(inodeBitmap[..])[k := false]
        && forall j :: 0 <= j < numInodes && j != k ==> inodes[j] == old(inodes[j])
    {
      var k := directory[name];
      SetLength(k, 0);
      label emptied:
      assert IsEmpty(inodes[k]);
      FreeInode(k);
      forall j | 0 <= j < numInodes
        ensures FreeInodeEmpty(j)
      {
        assert old@emptied(FreeInodeEmpty(j));
      }
      directory := directory - {name};
      forall j | 0 <= j < numOpenFile
        ensures EntryOk(j)
      {
        assert old(EntryOk(j));
      }
    }

    /** The usage counts of RSFS_stat (its printing is not modelled). */
    method Stat() returns (dbUsed: int, inodesUsed: int, openFiles: int)
      requires Shapes()
      ensures dbUsed == Bitmap.CountSet(dataBitmap[..])
      ensures inodesUsed == Bitmap.CountSet(inodeBitmap[..])
      ensures openFiles == Bitmap.CountSet(UsedFlags(table[..]))
      ensures dbUsed == |set b | 0 <= b < numDBlocks && dataBitmap[b]|
      ensures inodesUsed == |set k | 0 <= k < numInodes && inodeBitmap[k]|
      ensures openFiles == |set fd | 0 <= fd < numOpenFile && InUse(fd)|
    {
      dbUsed := Bitmap.Count(dataBitmap);
      inodesUsed := Bitmap.Count(inodeBitmap);
      openFiles := CountOpen();
      Bitmap.CountSetIsSize(dataBitmap[..]);
      Bitmap.CountSetIsSize(inodeBitmap[..]);
      assert (set i | 0 <= i < |dataBitmap[..]| && dataBitmap[..][i]) == set b | 0 <= b < numDBlocks && dataBitmap[b];
      assert (set i | 0 <= i < |inodeBitmap[..]| && inodeBitmap[..][i]) == set k | 0 <= k < numInodes && inodeBitmap[k];
    }

    /** The third counting loop of RSFS_stat: the number of entries of the open-file table in use,
        that is, of the descriptors that pass the sanity test of the other calls. */
    method CountOpen() returns (n: int)
      requires table.Length == numOpenFile
      ensures n == Bitmap.CountSet(UsedFlags(table[..]))
      ensures n == |set fd | 0 <= fd < numOpenFile && InUse(fd)|
    {
      n := 0;
      ghost var flags := UsedFlags(table[..]);
      for i := 0 to numOpenFile
        invariant n == Bitmap.CountSet(flags[..i])
      {
        assert flags[..i + 1][..i] == flags[..i] && flags[i] == table[i].used;
        n := n + if table[i].used then 1 else 0;
      }
      assert flags[..numOpenFile] == flags;
      Bitmap.CountSetIsSize(flags);
      assert (set i | 0 <= i < |flags| && flags[i]) == set fd | 0 <= fd < numOpenFile && InUse(fd);
    }
  }
}
