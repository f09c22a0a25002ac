/** Sequences of RSFS calls on one file system, and what they promise together. */
module Scenarios {
  import opened Arith
  import opened RSFS

  /** RSFS_write at the position p of descriptor fd, then RSFS_fseek back to p, then RSFS_read
      of as many bytes as the write reported: the read returns exactly the bytes written, and
      leaves the position where the write left it. */
  method WriteSeekRead(fs: FileSystem, fd: int, buf: seq<byte>, size: int) returns (written: int, out: seq<byte>)
    requires fs.Valid() && fs.InUse(fd) && 0 <= size <= |buf|
    modifies fs.table, fs.inodes, fs.dataBitmap, fs.blocks
    ensures fs.Valid() && fs.InUse(fd)
    ensures 0 <= written <= size
    ensures out == buf[..written]
    ensures fs.table[fd].position == old(fs.table[fd].position) + written
  {
    var p := fs.table[fd].position;
    assert fs.EntryOk(fd);
    written := fs.Write(fd, buf, size);
    var seek := fs.Fseek(fd, p);
    var count;
    count, out := fs.Read(fd, written);
  }

  /** RSFS_append as written, on a descriptor whose position is the end of its file (as after
      opening an empty file), then RSFS_fseek to the end of what was appended. When some data
      block is free the append reports a positive count, yet the seek is refused and returns
      the old position: the length of the file did not grow. */
  method AppendThenSeekAsWritten(fs: FileSystem, fd: int, buf: seq<byte>, size: int)
    returns (appended: int, seek: int)
    requires fs.Valid() && fs.InUse(fd) && fs.table[fd].accessFlag == RDWR && 0 < size <= |buf|
    requires fs.table[fd].position == fs.inodes[fs.InodeOf(fd)].length
    requires fs.AppendFits(fs.InodeOf(fd), fs.table[fd].position, size)
    requires exists c :: 0 <= c < fs.numDBlocks && !fs.dataBitmap[c]
    modifies fs.table, fs.inodes, fs.dataBitmap, fs.blocks
    ensures 0 < appended <= size
    ensures seek == old(fs.table[fd].position)
  {
    var p := fs.table[fd].position;
    appended := fs.Append(fd, buf, size);
    seek := fs.Fseek(fd, p + appended);
  }

  /** The same sequence with the corrected append: the seek to the new end is accepted. */
  method AppendThenSeekCorrected(fs: FileSystem, fd: int, buf: seq<byte>, size: int)
    returns (appended: int, seek: int)
    requires fs.Valid() && fs.InUse(fd) && fs.table[fd].accessFlag == RDWR && 0 < size <= |buf|
    modifies fs.table, fs.inodes, fs.dataBitmap, fs.blocks
    ensures 0 <= appended <= size
    ensures seek == old(fs.inodes[fs.InodeOf(fd)].length) + appended
  {
    var p := fs.inodes[fs.InodeOf(fd)].length;
    appended := fs.AppendAtEnd(fd, buf, size);
    seek := fs.Fseek(fd, p + appended);
  }

  /** RSFS_close, then RSFS_append on the same descriptor, as written: append does not test
      whether the entry is in use, so when a data block is free it still stores bytes in the
      file the closed entry named. */
  method AppendAfterClose(fs: FileSystem, fd: int, buf: seq<byte>, size: int)
    returns (closed: int, appended: int)
    requires fs.Valid() && fs.InUse(fd) && fs.table[fd].accessFlag == RDWR && 0 < size <= |buf|
    requires fs.AppendFits(fs.InodeOf(fd), fs.table[fd].position, size)
    requires exists c :: 0 <= c < fs.numDBlocks && !fs.dataBitmap[c]
    modifies fs.table, fs.inodes, fs.dataBitmap, fs.blocks
    ensures closed == 0 && !fs.InUse(fd)
    ensures 0 < appended <= size
    ensures var k, start := old(fs.InodeOf(fd)), AppendStart(old(fs.table[fd].position), fs.blockSize);
      fs.Mapped(k, start) && fs.ByteAt(k, start) == buf[0]
  {
    ghost var k := fs.InodeOf(fd);
    closed := fs.Close(fd);
    assert fs.Named(fd) && fs.EntryInode(fd) == k;
    appended := fs.Append(fd, buf, size);
  }

  /** The same sequence with the corrected append, which refuses an unused entry. */
  method AppendAfterCloseCorrected(fs: FileSystem, fd: int, buf: seq<byte>, size: int)
    returns (closed: int, appended: int)
    requires fs.Valid() && fs.InUse(fd) && size <= |buf|
    modifies fs.table, fs.inodes, fs.dataBitmap, fs.blocks
    ensures closed == 0 && appended == -1
  {
    closed := fs.Close(fd);
    appended := fs.AppendAtEnd(fd, buf, size);
  }

  /** RSFS_append as written, from a position that starts a block the file already holds (as
      after writing into that block and seeking back to its start): when a data block is free,
      the slot is given a new block, and the block it held stays marked used while no pointer
      names it any more. */
  method AppendOverHeldBlock(fs: FileSystem, fd: int, buf: seq<byte>, size: int) returns (appended: int)
    requires fs.Valid() && fs.Accounted() && fs.InUse(fd) && fs.table[fd].accessFlag == RDWR && 0 < size <= |buf|
    requires fs.AppendFits(fs.InodeOf(fd), fs.table[fd].position, size)
    requires var k, p := fs.InodeOf(fd), fs.table[fd].position;
      p % fs.blockSize == 0 && p / fs.blockSize < fs.numPointer && fs.inodes[k].block[p / fs.blockSize] >= 0
    requires exists c :: 0 <= c < fs.numDBlocks && !fs.dataBitmap[c]
    modifies fs.inodes, fs.dataBitmap, fs.blocks
    ensures 0 < appended <= size
    ensures !fs.Accounted()
  {
    var k, p := fs.InodeOf(fd), fs.table[fd].position;
    var s := p / fs.blockSize;
    ghost var nodes0, bits0 := fs.inodes[..], fs.dataBitmap[..];
    assert fs.PointersOk(k);
    forall k', t | 0 <= k' < |nodes0| && 0 <= t < |nodes0[k'].block| && nodes0[k'].block[t] == nodes0[k].block[s]
      ensures k' == k && t == s
    {
      assert fs.Exclusive(k', t, k, s);
    }
    appended := fs.Append(fd, buf, size);
    DivMonotone(p, p + appended - 1, fs.blockSize);
    HeldBlockLost(bits0, nodes0, fs.dataBitmap[..], fs.inodes[..], k, s,
                  FirstBoundarySlot(p, fs.blockSize), SlotEnd(p, appended, fs.blockSize), appended < size);
  }

  /** The same sequence with the corrected append: the read returns exactly the bytes appended. */
  method AppendThenReadCorrected(fs: FileSystem, fd: int, buf: seq<byte>, size: int)
    returns (appended: int, count: int, out: seq<byte>)
    requires fs.Valid() && fs.InUse(fd) && fs.table[fd].accessFlag == RDWR && 0 < size <= |buf|
    modifies fs.table, fs.inodes, fs.dataBitmap, fs.blocks
    ensures 0 <= appended <= size
    ensures count == appended && out == buf[..appended]
  {
    var p := fs.inodes[fs.InodeOf(fd)].length;
    appended := fs.AppendAtEnd(fd, buf, size);
    var seek := fs.Fseek(fd, p);
    count, out := fs.Read(fd, size);
  }
}
