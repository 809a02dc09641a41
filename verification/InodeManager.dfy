/** The inode layer (class inode_manager): inode table, whole-file reads and writes. */
module InodeLayer {
  import opened Bytes
  import opened Geometry
  import opened Bitmap
  import opened BlockLayer
  import opened Layout
  import opened Ownership
  import opened Transfer

  datatype Option<T> = None | Some(value: T)

  const T_DIR: U16 := 1
  const T_FILE: U16 := 2
  /** Used by the client layer; any third nonzero type would do. */
  const T_SYMLINK: U16 := 3

  const ZERO_INODE: DiskInode := Inode(0, 0, 0, 0, 0, seq<U32>(NDIRECT + 1, _ => 0))

  /** The numbers of extent_protocol's types; that of a link is only known to differ. */
  lemma TypeNumbers()
    ensures T_DIR == 1 && T_FILE == 2 && T_SYMLINK != 0 && T_SYMLINK != 1 && T_SYMLINK != 2
  {}

  class InodeManager {
    const bm: BlockManager
    /** The counter that alloc_inode keeps in a static variable: the last number handed out. */
    var lastInum: nat

    ghost predicate Valid()
      reads this, bm.blocks
    {
      bm.Valid() && Sound(bm.Disk(), lastInum)
    }

    ghost function Files(): map<nat, File>
      requires bm.Valid()
      reads bm.blocks
    {
      Store(bm.Disk())
    }

    // ---------------------------------------------------------------- the inode table

    /** An inode structure by number; nothing for a number out of range or a dead inode. */
    method GetInode(inum: nat) returns (ino: Option<DiskInode>)
      requires bm.Valid()
      ensures ino == if inum < INODE_NUM && Live(bm.Disk(), inum) then Some(InodeAt(bm.Disk(), inum)) else None
    {
      if inum >= INODE_NUM {
        return None;
      }
      var buf := bm.ReadBlock(IBlock(inum));
      var inoDisk := DecodeInode(buf);
      if inoDisk.kind == 0 {
        return None;
      }
      ino := Some(inoDisk);
    }

    /** Overwrite the inode; the rest of its block and every other block stay as they are. */
    method PutInode(inum: nat, ino: DiskInode)
      requires bm.Valid() && IBlock(inum) < BLOCK_NUM
      modifies bm.blocks
      ensures DecodeInode(bm.Disk()[IBlock(inum)]) == ino
      ensures bm.Disk()[IBlock(inum)][INODE_BYTES..] == old(bm.Disk())[IBlock(inum)][INODE_BYTES..]
      ensures OnlyBlockWritten(old(bm.Disk()), bm.Disk(), IBlock(inum))
    {
      hide DecodeInode, EncodeInode;
      var pad: U16 := *;  // the padding of a struct has whatever value it has
      var buf := bm.ReadBlock(IBlock(inum));
      InodeRoundTrip(ino, pad, buf);
      EncodeKeepsTail(ino, pad, buf);
      bm.WriteBlock(IBlock(inum), EncodeInode(ino, pad, buf));
    }

    /** Hand out the next inode number, which was never handed out before, for an empty file.
        The code checks neither the number nor the type: past the inode table, or with type 0,
        the number is spent and no file comes into being. */
    method AllocInode(kind: U16, now: U32) returns (inum: nat)
      requires Valid() && lastInum + 1 < INUM_LIMIT
      modifies this, bm.blocks
      ensures Valid()
      ensures inum == old(lastInum) + 1 == lastInum && inum !in old(Files())
      ensures Files() == if inum < INODE_NUM && kind != 0 then old(Files())[inum := File(kind, [])] else old(Files())
      ensures inum < INODE_NUM ==>
                InodeAt(bm.Disk(), inum) == Inode(kind, 0, now, now, now, InodeAt(bm.Disk(), inum).blocks)
      ensures OnlyBlockWritten(old(bm.Disk()), bm.Disk(), IBlock(inum))
    {
      hide Sound, Store, Replaced, DecodeInode, OnlyBlockWritten;
      ghost var d := bm.Disk();
      ghost var before := lastInum;
      SoundNumbers(d, lastInum);
      lastInum := lastInum + 1;
      inum := lastInum;
      var ino: DiskInode := *;  // fresh from malloc
      ino := ino.(kind := kind, size := 0);
      ino := ino.(ctime := now, atime := now, mtime := now);
      PutInode(inum, ino);
      if inum < INODE_NUM {
        DeadInode(d, before, inum);
        EmptyFileReplaces(d, bm.Disk(), inum);
        ReplacedIsSound(d, bm.Disk(), inum, [], before, lastInum);
        assert Store(d) - {inum} == Store(d);
      } else {
        GapIsHarmless(d, bm.Disk(), IBlock(inum), before, lastInum);
      }
    }

    /** A zeroed disk with the root directory as inode 1. */
    constructor (now: U32)
      ensures Valid() && fresh(bm) && fresh(bm.blocks) && lastInum == 1
      ensures Files() == map[1 := File(T_DIR, [])]
    {
      bm := new BlockManager();
      lastInum := 0;
      new;
      EmptyDiskIsSound(bm.Disk());
      var rootDir := AllocInode(T_DIR, now);
    }

    /** Zero the inode unless it is already free. */
    method FreeInode(inum: nat)
      requires bm.Valid()
      modifies bm.blocks
      ensures inum < INODE_NUM ==> !Live(bm.Disk(), inum) && OnlyInodeWritten(old(bm.Disk()), bm.Disk(), inum)
      ensures inum < INODE_NUM && old(Live(bm.Disk(), inum)) ==> InodeAt(bm.Disk(), inum) == ZERO_INODE
      ensures !(inum < INODE_NUM && old(Live(bm.Disk(), inum))) ==> bm.Disk() == old(bm.Disk())
    {
      hide DecodeInode, EncodeInode;
      var prevIno := GetInode(inum);
      if prevIno.None? {
        return;
      }
      var buf := bm.ReadBlock(IBlock(inum));
      InodeRoundTrip(ZERO_INODE, 0, buf);
      bm.WriteBlock(IBlock(inum), EncodeInode(ZERO_INODE, 0, buf));
    }

    /** Attributes of a live inode. */
    method GetAttr(inum: nat) returns (a: Option<DiskInode>)
      requires Valid()
      ensures a.Some? <==> inum in Files()
      ensures a.Some? ==> a.value == InodeAt(bm.Disk(), inum)
      ensures a.Some? ==> a.value.kind == Files()[inum].kind && a.value.size == |Files()[inum].data|
    {
      hide Sound, DecodeInode;
      a := GetInode(inum);
    }

    // ---------------------------------------------------------------- loops over blocks

    method LoadBlocks(ino: DiskInode) returns (buf: seq<Byte>)
      requires bm.Valid() && FileOk(bm.Disk(), ino)
      ensures |buf| == NumBlocks(ino.size) * BLOCK_SIZE && ino.size <= |buf|
      ensures buf[..ino.size] == Gather(bm.Disk(), DataBlocks(bm.Disk(), ino), ino.size)
    {
      hide FileOk, DataBlocks, Owned, Gather, BytesToWords;
      ghost var d := bm.Disk();
      ghost var ids := DataBlocks(d, ino);
      DataParts(d, ino);
      var readSize, i := 0, 0;
      buf := [];
      while readSize < ino.size && i < NDIRECT
        invariant 0 <= i <= NDIRECT && i <= NumBlocks(ino.size) && readSize == i * BLOCK_SIZE == |buf|
        invariant Holds(d, ids[..i], buf)
      {
        BlocksLeft(ino.size, i);
        assert ids[i] == ino.blocks[i];
        var b := bm.ReadBlock(ino.blocks[i]);
        LoadStep(d, ids, i, buf, b);
        buf := buf + b;
        readSize, i := readSize + BLOCK_SIZE, i + 1;
      }
      BlocksLeft(ino.size, i);
      if readSize < ino.size {
        var id := ino.blocks[NDIRECT];
        var indirect := bm.ReadBlock(id);
        var blockidBuf := BytesToWords(indirect);
        i := 0;
        while readSize < ino.size
          invariant 0 <= i <= NumBlocks(ino.size) - NDIRECT && readSize == (NDIRECT + i) * BLOCK_SIZE == |buf|
          invariant Holds(d, ids[..NDIRECT + i], buf)
        {
          BlocksLeft(ino.size, NDIRECT + i);
          assert ids[NDIRECT + i] == blockidBuf[i];
          var b := bm.ReadBlock(blockidBuf[i]);
          LoadStep(d, ids, NDIRECT + i, buf, b);
          buf := buf + b;
          readSize, i := readSize + BLOCK_SIZE, i + 1;
        }
        BlocksLeft(ino.size, NDIRECT + i);
      }
      assert ids[..|ids|] == ids;
      HoldsGather(d, ids, buf, ino.size);
    }

    method FreeIndirect(ino: DiskInode, done: nat, ghost start: Image)
      requires bm.Valid() && FileOk(start, ino)
      requires done == NDIRECT * BLOCK_SIZE < ino.size
      requires Released(start, bm.Disk(), ino.blocks[..NDIRECT])
      modifies bm.blocks
      ensures Released(start, bm.Disk(), Owned(start, ino))
    {
      hide MarkBit, Used, FileOk, BytesToWords, Owned;
      ghost var own := Owned(start, ino);
      OwnedParts(start, ino);
      BlocksLeft(ino.size, NDIRECT);
      var freeSize := done;
      var id := ino.blocks[NDIRECT];
      assert own[NDIRECT] == id;
      var buf := bm.ReadBlock(id);
      var blockidBuf := BytesToWords(buf);
      IndirectBlockKept(start, bm.Disk(), ino.blocks[..NDIRECT], id);
      ghost var direct := ino.blocks[..NDIRECT];
      ghost var n := NumBlocks(ino.size) - NDIRECT;
      assert own == direct + [id] + blockidBuf[..n];
      assert direct + blockidBuf[..0] == direct;
      var i := 0;
      while freeSize < ino.size
        invariant 0 <= i <= n && freeSize == (NDIRECT + i) * BLOCK_SIZE
        invariant Released(start, bm.Disk(), direct + blockidBuf[..i])
      {
        BlocksLeft(ino.size, NDIRECT + i);
        assert own[NDIRECT + 1 + i] == blockidBuf[i];
        ReleaseStep(start, bm.Disk(), direct + blockidBuf[..i], blockidBuf[i]);
        bm.FreeBlock(blockidBuf[i]);
        assert direct + blockidBuf[..i + 1] == direct + blockidBuf[..i] + [blockidBuf[i]];
        freeSize, i := freeSize + BLOCK_SIZE, i + 1;
      }
      BlocksLeft(ino.size, NDIRECT + i);
      ReleaseStep(start, bm.Disk(), direct + blockidBuf[..i], id);
      bm.FreeBlock(id);
      ReleasedSame(start, bm.Disk(), direct + blockidBuf[..n] + [id], own);
    }

    /** The freeing loops that write_file and remove_file share. */
    method FreeBlocks(ino: DiskInode)
      requires bm.Valid() && FileOk(bm.Disk(), ino)
      modifies bm.blocks
      ensures Released(old(bm.Disk()), bm.Disk(), Owned(old(bm.Disk()), ino))
    {
      hide MarkBit, Used, FileOk, BytesToWords, Owned;
      ghost var start := bm.Disk();
      ghost var own := Owned(start, ino);
      OwnedParts(start, ino);
      var freeSize, i := 0, 0;
      assert ino.blocks[..0] == [] && Elems([]) == {};
      while freeSize < ino.size && i < NDIRECT
        invariant 0 <= i <= NDIRECT && i <= NumBlocks(ino.size) && freeSize == i * BLOCK_SIZE
        invariant Released(start, bm.Disk(), ino.blocks[..i])
      {
        BlocksLeft(ino.size, i);
        assert own[i] == ino.blocks[i];
        ReleaseStep(start, bm.Disk(), ino.blocks[..i], ino.blocks[i]);
        bm.FreeBlock(ino.blocks[i]);
        assert ino.blocks[..i + 1] == ino.blocks[..i] + [ino.blocks[i]];
        freeSize, i := freeSize + BLOCK_SIZE, i + 1;
      }
      BlocksLeft(ino.size, i);
      if freeSize < ino.size {
        FreeIndirect(ino, freeSize, start);
      } else {
        assert own == ino.blocks[..i];
      }
    }

    /** alloc_block while there is room: a block on the disk that nobody has. */
    method NewBlock(ghost start: Image, ghost ids: seq<U32>) returns (id: U32)
      requires bm.Valid() && Allocated(start, bm.Disk(), ids)
      requires |Used(start)| + |ids| < DATA_BLOCKS
      modifies bm.blocks
      ensures DATA_START <= id < BLOCK_NUM && id !in ids
      ensures bm.Disk() == MarkBit(old(bm.Disk()), id, true)
      ensures Allocated(start, bm.Disk(), ids + [id])
    {
      hide MarkBit, Used, Allocated, BitAt;
      ghost var d := bm.Disk();
      AllocatedCount(start, d, ids);
      SomeBitIsClear(d);
      id := bm.AllocBlock();
      LowestClearIsOnDisk(d, id);
      AllocStep(start, d, ids, id);
    }

    method FillBlock(id: U32, mem: seq<Byte>, at: nat, ghost start: Image, ghost ids: seq<U32>, ghost stored: seq<U32>)
      requires bm.Valid() && Allocated(start, bm.Disk(), ids) && id in ids
      requires Holds(bm.Disk(), stored, mem) && id !in stored
      requires at == |stored| * BLOCK_SIZE && at + BLOCK_SIZE <= |mem|
      modifies bm.blocks
      ensures Allocated(start, bm.Disk(), ids)
      ensures Holds(bm.Disk(), stored + [id], mem)
    {
      hide Used;
      ghost var d := bm.Disk();
      var b: Block := mem[at..][..BLOCK_SIZE];
      FillStep(start, d, ids, id, b);
      FillHolds(d, stored, mem, id, b);
      bm.WriteBlock(id, b);
    }

    method StoreDirect(ino: DiskInode, mem: seq<Byte>, size: nat) returns (r: DiskInode, written: nat)
      requires bm.Valid() && NumBlocks(size) * BLOCK_SIZE <= |mem|
      requires |Used(bm.Disk())| + OwnedCount(size) <= DATA_BLOCKS
      modifies bm.blocks
      ensures r == ino.(blocks := r.blocks)
      ensures var n := if NumBlocks(size) <= NDIRECT then NumBlocks(size) else NDIRECT;
              && written == n * BLOCK_SIZE
              && Allocated(old(bm.Disk()), bm.Disk(), r.blocks[..n])
              && Holds(bm.Disk(), r.blocks[..n], mem)
    {
      hide Used, MarkBit, Allocated, Holds;
      r := ino;
      written := 0;
      var i := 0;
      ghost var start := bm.Disk();
      assert r.blocks[..0] == [];
      NothingAllocated(start, mem);
      while written < size && i < NDIRECT
        invariant 0 <= i <= NDIRECT && i <= NumBlocks(size) && written == i * BLOCK_SIZE
        invariant r == ino.(blocks := r.blocks)
        invariant Allocated(start, bm.Disk(), r.blocks[..i])
        invariant Holds(bm.Disk(), r.blocks[..i], mem)
      {
        BlocksLeft(size, i);
        ghost var ids := r.blocks[..i];
        ghost var d := bm.Disk();
        AllocatedInData(start, d, ids);
        var id := NewBlock(start, ids);
        MarkKeepsHolds(d, ids, mem, id);
        r := r.(blocks := r.blocks[i := id]);
        assert r.blocks[..i + 1] == ids + [id];
        FillBlock(id, mem, written, start, ids + [id], ids);
        i, written := i + 1, written + BLOCK_SIZE;
      }
      BlocksLeft(size, i);
    }

    /** Storage fresh from malloc: its contents are arbitrary. */
    method FreshBuffer() returns (ws: seq<U32>)
      ensures |ws| == NINDIRECT
    {
      assert |seq<U32>(NINDIRECT, _ => 0)| == NINDIRECT;
      ws :| |ws| == NINDIRECT;
    }

    method StoreIndirect(ino: DiskInode, mem: seq<Byte>, size: nat, done: nat, ghost start: Image) returns (r: DiskInode)
      requires bm.Valid() && NumBlocks(size) * BLOCK_SIZE <= |mem| && size <= MAX_SIZE
      requires |Used(start)| + OwnedCount(size) <= DATA_BLOCKS
      requires done == NDIRECT * BLOCK_SIZE < size
      requires Allocated(start, bm.Disk(), ino.blocks[..NDIRECT])
      requires Holds(bm.Disk(), ino.blocks[..NDIRECT], mem)
      modifies bm.blocks
      ensures r == ino.(blocks := r.blocks)
      ensures Allocated(start, bm.Disk(), Owned(bm.Disk(), r.(size := size)))
      ensures |Owned(bm.Disk(), r.(size := size))| == OwnedCount(size)
      ensures Holds(bm.Disk(), DataBlocks(bm.Disk(), r.(size := size)), mem)
    {
      hide Used, MarkBit, Allocated, Holds, Owned, DataBlocks, BytesToWords, WordsToBytes;
      var written := done;
      ghost var direct := ino.blocks[..NDIRECT];
      ghost var n := NumBlocks(size) - NDIRECT;
      BlocksLeft(size, NDIRECT);
      ghost var d := bm.Disk();
      AllocatedInData(start, d, direct);
      var id := NewBlock(start, direct);
      MarkKeepsHolds(d, direct, mem, id);
      r := ino.(blocks := ino.blocks[NDIRECT := id]);
      var blockidBuf: seq<U32> := FreshBuffer();
      var i := 0;
      assert blockidBuf[..0] == [] && direct + [] == direct && direct + [id] + [] == direct + [id];
      while written < size
        invariant 0 <= i <= n && written == (NDIRECT + i) * BLOCK_SIZE && |blockidBuf| == NINDIRECT
        invariant Allocated(start, bm.Disk(), direct + [id] + blockidBuf[..i])
        invariant Holds(bm.Disk(), direct + blockidBuf[..i], mem)
      {
        BlocksLeft(size, NDIRECT + i);
        ghost var ids := direct + [id] + blockidBuf[..i];
        ghost var stored := direct + blockidBuf[..i];
        d := bm.Disk();
        AllocatedInData(start, d, ids);
        StoredAmongTaken(direct, id, blockidBuf[..i]);
        var indirectId := NewBlock(start, ids);
        MarkKeepsHolds(d, stored, mem, indirectId);
        blockidBuf := blockidBuf[i := indirectId];
        assert direct + [id] + blockidBuf[..i + 1] == ids + [indirectId];
        assert direct + blockidBuf[..i + 1] == stored + [indirectId];
        FillBlock(indirectId, mem, written, start, ids + [indirectId], stored);
        i, written := i + 1, written + BLOCK_SIZE;
      }
      BlocksLeft(size, NDIRECT + i);
      IndirectRoundTrip(blockidBuf);
      d := bm.Disk();
      IndirectStored(start, d, r.(size := size), mem, blockidBuf);
      bm.WriteBlock(id, WordsToBytes(blockidBuf));
    }

    method StoreBlocks(ino: DiskInode, mem: seq<Byte>, size: nat) returns (r: DiskInode)
      requires bm.Valid() && NumBlocks(size) * BLOCK_SIZE <= |mem| && size <= MAX_SIZE
      requires |Used(bm.Disk())| + OwnedCount(size) <= DATA_BLOCKS
      modifies bm.blocks
      ensures r == ino.(blocks := r.blocks)
      ensures Allocated(old(bm.Disk()), bm.Disk(), Owned(bm.Disk(), r.(size := size)))
      ensures |Owned(bm.Disk(), r.(size := size))| == OwnedCount(size)
      ensures Holds(bm.Disk(), DataBlocks(bm.Disk(), r.(size := size)), mem)
    {
      hide Used, Allocated, Holds, BytesToWords;
      ghost var start := bm.Disk();
      var written;
      r, written := StoreDirect(ino, mem, size);
      BlocksLeft(size, NDIRECT);
      if written < size {
        r := StoreIndirect(r, mem, size, written, start);
      }
    }

    // ---------------------------------------------------------------- whole files

    /** The whole file, read block by block; the caller keeps the first size bytes. Only the
        access time changes. */
    method ReadFile(inum: nat, now: U32) returns (bufOut: seq<Byte>, size: nat)
      requires Valid() && inum in Files()
      modifies bm.blocks
      ensures Valid() && Files() == old(Files())
      ensures size <= |bufOut| && bufOut[..size] == Files()[inum].data
      ensures OnlyInodeWritten(old(bm.Disk()), bm.Disk(), inum)
      ensures InodeAt(bm.Disk(), inum) == old(InodeAt(bm.Disk(), inum)).(atime := now)
    {
      hide Sound, Replaced, DecodeInode, FileOk, DataBlocks, Gather, Store, Owned, OwnedBy, Live;
      ghost var d := bm.Disk();
      SoundInode(d, lastInum, inum);
      var found := GetInode(inum);
      var ino := found.value;
      size := ino.size;
      bufOut := LoadBlocks(ino);
      ino := ino.(atime := now);
      PutInode(inum, ino);
      TouchReplaces(d, bm.Disk(), inum, lastInum);
      ReplacedIsSound(d, bm.Disk(), inum, OwnedBy(d, inum), lastInum, lastInum);
      assert Store(bm.Disk()) == Store(d);
    }

    /** A block of whatever memory follows the caller's buffer: its contents are arbitrary. */
    method MemoryPastBuffer() returns (past: seq<Byte>)
      ensures |past| == BLOCK_SIZE
    {
      assert |seq<Byte>(BLOCK_SIZE, _ => 0)| == BLOCK_SIZE;
      past :| |past| == BLOCK_SIZE;
    }

    /** Replace the whole contents of a file: free every block, then allocate again. */
    method WriteFile(inum: nat, buf: seq<Byte>, now: U32)
      requires Valid() && inum in Files() && |buf| <= MAX_SIZE
      requires Demand(Files()[inum := File(Files()[inum].kind, buf)]) <= DATA_BLOCKS
      modifies bm.blocks
      ensures Valid() && Files() == old(Files())[inum := File(old(Files())[inum].kind, buf)]
      ensures WriteEffect(old(bm.Disk()), bm.Disk(), inum, |buf|, now)
    {
      hide Sound, Replaced, DecodeInode, FileOk, Owned, DataBlocks, Gather, Used, Released, Allocated,
           Holds, Demand, Store, OwnedBy, Live, SameOutside;
      ghost var d0 := bm.Disk();
      SoundInode(d0, lastInum, inum);
      var found := GetInode(inum);
      var ino := found.value;
      FreeBlocks(ino);
      ghost var d1 := bm.Disk();
      RoomAfterFree(d0, d1, lastInum, inum, buf);
      var past := MemoryPastBuffer();
      BlocksLeft(|buf|, 0);
      ino := StoreBlocks(ino, buf + past, |buf|);
      ghost var d2 := bm.Disk();
      ghost var stored := ino.(size := |buf|);
      ino := ino.(size := |buf|);
      ino := ino.(ctime := now, mtime := now);
      TimesDoNotMatter(d2, stored, ino);
      StoredFileOk(d1, d2, ino, buf + past);
      PutInode(inum, ino);
      FinishWrite(d0, d1, d2, bm.Disk(), inum, lastInum, buf);
    }

    /** Free the blocks and the inode. */
    method RemoveFile(inum: nat)
      requires Valid() && inum in Files()
      modifies bm.blocks
      ensures Valid() && Files() == old(Files()) - {inum}
      ensures RemoveEffect(old(bm.Disk()), bm.Disk(), inum)
    {
      hide Sound, Replaced, DecodeInode, FileOk, Owned, Used, Released, Store, OwnedBy, Live, IBlock, SameOutside;
      ghost var d0 := bm.Disk();
      SoundInode(d0, lastInum, inum);
      var found := GetInode(inum);
      FreeBlocks(found.value);
      ghost var d1 := bm.Disk();
      FreeInode(inum);
      FinishRemove(d0, d1, bm.Disk(), inum, lastInum);
    }
  }

  /** Writing one file and reading it and any other: the first gives back exactly what was
      written, the second is untouched, though blocks were freed and taken again in between. */
  method WriteThenRead(im: InodeManager, i: nat, buf: seq<Byte>, j: nat, now: U32)
    returns (mine: seq<Byte>, other: seq<Byte>)
    requires im.Valid() && i in im.Files() && j in im.Files() && |buf| <= MAX_SIZE
    requires Demand(im.Files()[i := File(im.Files()[i].kind, buf)]) <= DATA_BLOCKS
    modifies im.bm.blocks
    ensures im.Valid()
    ensures mine == buf
    ensures other == if i == j then buf else old(im.Files())[j].data
  {
    hide Sound, Store, Demand, WriteEffect;
    im.WriteFile(i, buf, now);
    var size;
    mine, size := im.ReadFile(i, now);
    mine := mine[..size];
    other, size := im.ReadFile(j, now);
    other := other[..size];
  }
}
