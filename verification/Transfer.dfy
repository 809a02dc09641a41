/** The two halves of rewriting a file, seen on disk images: giving blocks back and taking new ones. */
module Transfer {
  import opened Bytes
  import opened Geometry
  import opened Bitmap
  import opened Layout
  import opened Ownership

  /** The loops count bytes in steps of a block; this is the number of steps they take. */
  lemma BlocksLeft(size: nat, i: nat)
    ensures i * BLOCK_SIZE < size <==> i < NumBlocks(size)
    ensures size <= NumBlocks(size) * BLOCK_SIZE < size + BLOCK_SIZE
  {}

  // ---------------------------------------------------------------- giving back

  ghost predicate Released(d: Image, e: Image, ids: seq<U32>) {
    && Used(e) == Used(d) - Elems(ids)
    && SameOutside(d, e, [])
  }

  lemma ReleaseStep(d: Image, e: Image, ids: seq<U32>, id: U32)
    requires Released(d, e, ids) && DATA_START <= id < BLOCK_NUM
    ensures Released(d, MarkBit(e, id, false), ids + [id])
  {
    hide Used, PutBlockBit;
    UsedAfterMark(e, id, false);
    assert Elems(ids + [id]) == Elems(ids) + {id as nat};
    assert IsBitmapBlock(id / BPB);
  }

  lemma ReleasedSame(d: Image, e: Image, ids: seq<U32>, other: seq<U32>)
    requires Released(d, e, ids) && Elems(ids) == Elems(other)
    ensures Released(d, e, other)
  {}

  lemma OwnedParts(d: Image, ino: DiskInode)
    requires FileOk(d, ino)
    ensures InData(Owned(d, ino)) && |Owned(d, ino)| == OwnedCount(ino.size) && ino.size <= MAX_SIZE
    ensures NumBlocks(ino.size) <= NDIRECT ==> Owned(d, ino) == ino.blocks[..NumBlocks(ino.size)]
    ensures NumBlocks(ino.size) > NDIRECT ==>
      && ino.blocks[NDIRECT] < BLOCK_NUM
      && Owned(d, ino) == ino.blocks[..NDIRECT] + [ino.blocks[NDIRECT]]
           + BytesToWords(d[ino.blocks[NDIRECT]])[..NumBlocks(ino.size) - NDIRECT]
  {
    hide BytesToWords;
    if NumBlocks(ino.size) > NDIRECT {
      assert Owned(d, ino)[NDIRECT] == ino.blocks[NDIRECT];
      assert ino.blocks[..NDIRECT + 1] == ino.blocks[..NDIRECT] + [ino.blocks[NDIRECT]];
    }
  }

  lemma IndirectBlockKept(d: Image, e: Image, ids: seq<U32>, id: U32)
    requires Released(d, e, ids) && DATA_START <= id < BLOCK_NUM
    ensures e[id] == d[id]
  {
    var b: nat := id;
    assert !IsBitmapBlock(b);
  }

  // ---------------------------------------------------------------- taking

  /** From d to e exactly the blocks ids were taken, and nothing but the bitmap and those
      blocks was written. */
  ghost predicate Allocated(d: Image, e: Image, ids: seq<U32>) {
    && NoDup(ids) && InData(ids)
    && (forall a :: 0 <= a < |ids| ==> ids[a] !in Used(d))
    && Used(e) == Used(d) + Elems(ids)
    && SameOutside(d, e, ids)
  }

  /** Block k of the file is in block ids[k]. */
  ghost predicate Holds(e: Image, ids: seq<U32>, mem: seq<Byte>) {
    && |ids| * BLOCK_SIZE <= |mem|
    && (forall k: nat :: k < |ids| ==> ids[k] < BLOCK_NUM && e[ids[k]] == mem[k * BLOCK_SIZE..][..BLOCK_SIZE])
  }

  lemma AllocatedCount(d: Image, e: Image, ids: seq<U32>)
    requires Allocated(d, e, ids)
    ensures |Used(e)| == |Used(d)| + |ids|
  {
    hide Used;
    ElemsSize(ids);
    UnionSize(Used(d), Elems(ids));
  }

  lemma AllocStep(d: Image, e: Image, ids: seq<U32>, id: U32)
    requires Allocated(d, e, ids)
    requires DATA_START <= id < BLOCK_NUM && id as nat !in Used(e)
    ensures id !in ids
    ensures Allocated(d, MarkBit(e, id, true), ids + [id])
  {
    hide Used, PutBlockBit;
    UsedAfterMark(e, id, true);
    assert Elems(ids + [id]) == Elems(ids) + {id as nat};
    assert IsBitmapBlock(id / BPB);
    assert id !in ids;
  }

  lemma MarkKeepsHolds(e: Image, ids: seq<U32>, mem: seq<Byte>, id: U32)
    requires Holds(e, ids, mem) && InData(ids) && DATA_START <= id < BLOCK_NUM
    ensures Holds(MarkBit(e, id, true), ids, mem)
  {
    hide PutBlockBit;
    assert IsBitmapBlock(id / BPB);
  }

  lemma FillStep(d: Image, e: Image, ids: seq<U32>, id: U32, b: Block)
    requires Allocated(d, e, ids) && id in ids
    ensures id < BLOCK_NUM && Allocated(d, e[id := b], ids)
  {
    hide Used;
    assert id < BLOCK_NUM && id >= DATA_START;
    UsedFrame(e, e[id := b]);
  }

  lemma FillHolds(e: Image, ids: seq<U32>, mem: seq<Byte>, id: U32, b: Block)
    requires Holds(e, ids, mem) && id !in ids && id < BLOCK_NUM
    requires (|ids| + 1) * BLOCK_SIZE <= |mem| && b == mem[|ids| * BLOCK_SIZE..][..BLOCK_SIZE]
    ensures Holds(e[id := b], ids + [id], mem)
  {}

  lemma NothingAllocated(d: Image, mem: seq<Byte>)
    ensures Allocated(d, d, []) && Holds(d, [], mem)
  {
    assert Elems([]) == {};
  }

  lemma AllocatedInData(d: Image, e: Image, ids: seq<U32>)
    requires Allocated(d, e, ids)
    ensures InData(ids)
  {}

  /** A file past 100 blocks stores data in all the blocks it takes but one. */
  lemma StoredAmongTaken(direct: seq<U32>, id: U32, rest: seq<U32>)
    ensures forall x :: x in direct + rest ==> x in direct + [id] + rest
    ensures InData(direct + [id] + rest) ==> InData(direct + rest)
    ensures NoDup(direct + [id] + rest) ==> id !in direct + rest
  {
    var all := direct + [id] + rest;
    forall k | 0 <= k < |direct + rest|
      ensures (direct + rest)[k] == all[if k < |direct| then k else k + 1]
    {}
    assert all[|direct|] == id;
  }

  /** Writing the indirect block last completes the file. */
  lemma IndirectStored(d: Image, e: Image, ino: DiskInode, mem: seq<Byte>, ws: seq<U32>)
    requires |ws| == NINDIRECT && NumBlocks(ino.size) > NDIRECT && ino.size <= MAX_SIZE
    requires |WordsToBytes(ws)| == BLOCK_SIZE && BytesToWords(WordsToBytes(ws)) == ws
    requires var n := NumBlocks(ino.size) - NDIRECT;
             && Allocated(d, e, ino.blocks[..NDIRECT] + [ino.blocks[NDIRECT]] + ws[..n])
             && Holds(e, ino.blocks[..NDIRECT] + ws[..n], mem)
    ensures ino.blocks[NDIRECT] < BLOCK_NUM
    ensures var f := e[ino.blocks[NDIRECT] := WordsToBytes(ws)];
            && Allocated(d, f, Owned(f, ino))
            && |Owned(f, ino)| == OwnedCount(ino.size)
            && Holds(f, DataBlocks(f, ino), mem)
  {
    hide Used, BytesToWords, WordsToBytes;
    var n := NumBlocks(ino.size) - NDIRECT;
    var direct := ino.blocks[..NDIRECT];
    var id := ino.blocks[NDIRECT];
    var ids := direct + [id] + ws[..n];
    assert ids[NDIRECT] == id;
    StoredAmongTaken(direct, id, ws[..n]);
    FillStep(d, e, ids, id, WordsToBytes(ws));
    var f := e[id := WordsToBytes(ws)];
    assert ino.blocks[..NDIRECT + 1] == direct + [id];
    assert Owned(f, ino) == ids;
    assert DataBlocks(f, ino) == direct + ws[..n];
  }

  /** Blocks that hold the file one after the other give back its bytes, and none of what
      follows them in memory. */
  lemma HoldsGather(e: Image, ids: seq<U32>, mem: seq<Byte>, size: nat)
    requires Holds(e, ids, mem) && |ids| == NumBlocks(size) && size <= |mem|
    ensures Gather(e, ids, size) == mem[..size]
  {
    forall k: nat | k < size ensures Fetch(e, ids, k) == mem[k] {
      var a: nat := k / BLOCK_SIZE;
      assert a < |ids|;
      assert e[ids[a]] == mem[a * BLOCK_SIZE..][..BLOCK_SIZE];
      assert e[ids[a]][k % BLOCK_SIZE] == mem[a * BLOCK_SIZE + k % BLOCK_SIZE];
    }
  }

  // ---------------------------------------------------------------- what is written

  ghost predicate OthersKept(d: Image, e: Image, inum: nat) {
    forall i: nat :: i < INODE_NUM && i != inum ==> InodeAt(e, i) == InodeAt(d, i)
  }

  ghost predicate OnlyBlockWritten(d: Image, e: Image, n: nat) {
    forall b: nat :: b < BLOCK_NUM && b != n ==> e[b] == d[b]
  }

  ghost predicate OnlyInodeWritten(d: Image, e: Image, inum: nat) {
    inum < INODE_NUM && OnlyBlockWritten(d, e, IBlock(inum))
  }

  lemma OnlyBlockKeepsInodes(d: Image, e: Image, inum: nat)
    requires OnlyBlockWritten(d, e, IBlock(inum))
    ensures OthersKept(d, e, inum)
  {
    hide DecodeInode;
  }

  // ---------------------------------------------------------------- both together

  lemma OnlyBlockKeepsUsed(d: Image, e: Image, n: nat)
    requires OnlyBlockWritten(d, e, n) && !IsBitmapBlock(n)
    ensures Used(e) == Used(d)
  {
    hide Used;
    forall b | BBlock(0) <= b <= BBlock(BLOCK_NUM - 1) ensures d[b] == e[b] {
      var m: nat := b;
      assert m != n;
    }
    UsedFrame(d, e);
  }

  lemma SameBlocksOf(d2: Image, d3: Image, inum: nat, ino: DiskInode, ids: seq<U32>)
    requires inum < INODE_NUM && FileOk(d2, ino) && Owned(d2, ino) == ids
    requires OnlyBlockWritten(d2, d3, IBlock(inum))
    ensures Owned(d3, ino) == ids && FileOk(d3, ino)
    ensures Gather(d3, DataBlocks(d3, ino), ino.size) == Gather(d2, DataBlocks(d2, ino), ino.size)
  {
    hide DecodeInode, BytesToWords, Owned, DataBlocks;
    forall a | 0 <= a < |ids| ensures d3[ids[a]] == d2[ids[a]] {
      var b: nat := ids[a];
      assert b >= DATA_START;
    }
    SameBlocks(d2, d3, ino);
  }

  /** Giving back the old blocks, taking new ones and then writing the inode is a replacement. */
  lemma RewriteReplaces(d0: Image, d1: Image, d2: Image, d3: Image, inum: nat, ids: seq<U32>, lastInum: nat)
    requires Sound(d0, lastInum) && inum < INODE_NUM
    requires Released(d0, d1, OwnedBy(d0, inum)) && Allocated(d1, d2, ids)
    requires Live(d3, inum) && FileOk(d2, InodeAt(d3, inum)) && Owned(d2, InodeAt(d3, inum)) == ids
    requires OnlyBlockWritten(d2, d3, IBlock(inum))
    ensures Replaced(d0, d3, inum, ids)
    ensures FileOk(d3, InodeAt(d3, inum))
    ensures FileAt(d3, inum).data == Gather(d2, DataBlocks(d2, InodeAt(d3, inum)), InodeAt(d3, inum).size)
  {
    hide Used, DecodeInode, FileOk, BytesToWords, Owned, DataBlocks, Sound;
    var ino := InodeAt(d3, inum);
    OnlyBlockKeepsUsed(d2, d3, IBlock(inum));
    SameBlocksOf(d2, d3, inum, ino, ids);
    assert Released(d0, d1, OwnedBy(d0, inum));
  }

  /** The freshly stored blocks make a sound file holding exactly the first size bytes of memory. */
  lemma StoredFileOk(d1: Image, d2: Image, ino: DiskInode, mem: seq<Byte>)
    requires Allocated(d1, d2, Owned(d2, ino)) && |Owned(d2, ino)| == OwnedCount(ino.size)
    requires ino.size <= MAX_SIZE && ino.size <= |mem| && Holds(d2, DataBlocks(d2, ino), mem)
    ensures FileOk(d2, ino)
    ensures Gather(d2, DataBlocks(d2, ino), ino.size) == mem[..ino.size]
  {
    hide BytesToWords, Gather;
    OwnedShape(d2, ino);
    HoldsGather(d2, DataBlocks(d2, ino), mem, ino.size);
  }

  /** Times are not part of the layout. */
  lemma TimesDoNotMatter(d: Image, a: DiskInode, b: DiskInode)
    requires a.size == b.size && a.blocks == b.blocks
    ensures Owned(d, a) == Owned(d, b) && DataBlocks(d, a) == DataBlocks(d, b)
  {
    hide BytesToWords;
  }

  lemma SoundInode(d: Image, lastInum: nat, i: nat)
    requires Sound(d, lastInum) && i in Store(d)
    ensures 1 <= i <= lastInum < INUM_LIMIT && i < INODE_NUM && Live(d, i) && FileOk(d, InodeAt(d, i))
    ensures OwnedBy(d, i) == Owned(d, InodeAt(d, i))
    ensures |Store(d)[i].data| == InodeAt(d, i).size && Store(d)[i].kind == InodeAt(d, i).kind
    ensures Store(d)[i] == FileAt(d, i)
  {
    hide DecodeInode, FileOk, Owned, DataBlocks;
  }

  lemma OwnedIsUsed(d: Image, lastInum: nat, i: nat)
    requires Sound(d, lastInum) && i < INODE_NUM
    ensures Elems(OwnedBy(d, i)) <= Used(d)
  {
    hide Used, OwnedBy;
    assert forall x: nat :: x in OwnedBy(d, i) ==> x in OwnedBelow(d, INODE_NUM);
  }

  /** With the old blocks given back there is room for the new ones, whatever else is stored. */
  lemma RoomAfterFree(d0: Image, d1: Image, lastInum: nat, i: nat, data: seq<Byte>)
    requires Sound(d0, lastInum) && i in Store(d0)
    requires Released(d0, d1, OwnedBy(d0, i))
    requires Demand(Store(d0)[i := File(Store(d0)[i].kind, data)]) <= DATA_BLOCKS
    ensures |Used(d1)| + OwnedCount(|data|) <= DATA_BLOCKS
  {
    hide Used, Store, DecodeInode, Owned, FileOk;
    SoundInode(d0, lastInum, i);
    UsedCount(d0, lastInum);
    OwnCount(d0, lastInum, i);
    DemandBelowUpdate(Store(d0), i, File(Store(d0)[i].kind, data), INODE_NUM);
    OwnedIsUsed(d0, lastInum, i);
    assert Used(d0) == Used(d1) + Elems(OwnedBy(d0, i));
    UnionSize(Used(d1), Elems(OwnedBy(d0, i)));
  }

  // ---------------------------------------------------------------- reading

  lemma DataParts(d: Image, ino: DiskInode)
    requires FileOk(d, ino)
    ensures ino.size <= MAX_SIZE
    ensures |DataBlocks(d, ino)| == NumBlocks(ino.size) && InData(DataBlocks(d, ino))
    ensures forall k :: 0 <= k < NumBlocks(ino.size) && k < NDIRECT ==> DataBlocks(d, ino)[k] == ino.blocks[k]
    ensures NumBlocks(ino.size) > NDIRECT ==>
      && ino.blocks[NDIRECT] < BLOCK_NUM
      && forall k :: 0 <= k < NumBlocks(ino.size) - NDIRECT ==>
           DataBlocks(d, ino)[NDIRECT + k] == BytesToWords(d[ino.blocks[NDIRECT]])[k]
  {
    hide BytesToWords;
    OwnedShape(d, ino);
    var ids := DataBlocks(d, ino);
    forall k | 0 <= k < |ids| ensures DATA_START <= ids[k] < BLOCK_NUM {
      assert ids[k] == Owned(d, ino)[if k < NDIRECT then k else k + 1];
    }
    if NumBlocks(ino.size) > NDIRECT {
      assert DATA_START <= Owned(d, ino)[NDIRECT] < BLOCK_NUM;
    }
  }

  lemma LoadStep(d: Image, ids: seq<U32>, i: nat, buf: seq<Byte>, b: Block)
    requires i < |ids| && ids[i] < BLOCK_NUM && b == d[ids[i]]
    requires |buf| == i * BLOCK_SIZE && Holds(d, ids[..i], buf)
    ensures Holds(d, ids[..i + 1], buf + b)
  {
    forall k: nat | k < i + 1
      ensures d[ids[k]] == (buf + b)[k * BLOCK_SIZE..][..BLOCK_SIZE]
    {
      if k < i {
        assert ids[..i][k] == ids[k];
        assert (buf + b)[k * BLOCK_SIZE..][..BLOCK_SIZE] == buf[k * BLOCK_SIZE..][..BLOCK_SIZE];
      } else {
        assert (buf + b)[k * BLOCK_SIZE..] == b;
      }
    }
  }

  // ---------------------------------------------------------------- the other replacements

  lemma EmptyDiskIsSound(d: Image)
    requires forall b :: 0 <= b < BLOCK_NUM ==> d[b] == ZERO_BLOCK
    ensures Sound(d, 0) && Store(d) == map[]
  {
    hide Used;
    ZeroDiskUsesNothing(d);
    forall i: nat | i < INODE_NUM ensures !Live(d, i) {
      assert d[IBlock(i)] == ZERO_BLOCK;
    }
  }

  lemma SoundNumbers(d: Image, lastInum: nat)
    requires Sound(d, lastInum)
    ensures lastInum < INUM_LIMIT && forall i :: i in Store(d) ==> i <= lastInum && i < INODE_NUM
  {
    hide Used, Owned, DecodeInode;
  }

  lemma DeadInode(d: Image, lastInum: nat, i: nat)
    requires Sound(d, lastInum) && lastInum < i < INODE_NUM
    ensures !Live(d, i) && i !in Store(d) && OwnedBy(d, i) == []
  {
    hide Used, Owned, DecodeInode;
  }

  lemma LiveOwnsData(d: Image, lastInum: nat, i: nat)
    requires Sound(d, lastInum) && i < INODE_NUM
    ensures InData(OwnedBy(d, i)) && (Live(d, i) ==> FileOk(d, InodeAt(d, i)))
  {
    hide DecodeInode, Owned, Used, InodeAt;
  }

  lemma GapFrame(d: Image, e: Image, b: nat, lastInum: nat, i: nat)
    requires Sound(d, lastInum) && i < INODE_NUM
    requires IBlock(INODE_NUM - 1) < b < DATA_START && OnlyBlockWritten(d, e, b)
    ensures InodeAt(e, i) == InodeAt(d, i) && OwnedBy(e, i) == OwnedBy(d, i)
    ensures Live(d, i) ==> FileAt(e, i) == FileAt(d, i) && FileOk(e, InodeAt(e, i))
  {
    hide DecodeInode, Owned, FileAt, Used, FileOk, InodeAt;
    var own := OwnedBy(d, i);
    LiveOwnsData(d, lastInum, i);
    forall a | 0 <= a < |own| ensures own[a] < BLOCK_NUM && e[own[a]] == d[own[a]] {
      var x: nat := own[a];
      assert x != b;
    }
    var x: nat := IBlock(i);
    assert x != b;
    InodeFrame(d, e, i);
  }

  /** A block between the inode table and the data belongs to nobody. */
  lemma GapIsHarmless(d: Image, e: Image, b: nat, lastInum: nat, lastInum': nat)
    requires Sound(d, lastInum) && lastInum <= lastInum' < INUM_LIMIT
    requires IBlock(INODE_NUM - 1) < b < DATA_START && OnlyBlockWritten(d, e, b)
    ensures Sound(e, lastInum') && Store(e) == Store(d) && OthersKept(d, e, INODE_NUM)
  {
    hide DecodeInode, Owned, FileAt, Used, FileOk;
    OnlyBlockKeepsUsed(d, e, b);
    forall i: nat | i < INODE_NUM
      ensures InodeAt(e, i) == InodeAt(d, i) && OwnedBy(e, i) == OwnedBy(d, i)
      ensures Live(d, i) ==> FileAt(e, i) == FileAt(d, i) && FileOk(e, InodeAt(e, i))
    {
      GapFrame(d, e, b, lastInum, i);
    }
  }

  lemma EmptyFileReplaces(d: Image, e: Image, i: nat)
    requires i < INODE_NUM && !Live(d, i) && InodeAt(e, i).size == 0
    requires OnlyBlockWritten(d, e, IBlock(i))
    ensures Replaced(d, e, i, []) && (Live(e, i) ==> FileOk(e, InodeAt(e, i)))
    ensures FileAt(e, i) == File(InodeAt(e, i).kind, [])
  {
    hide Used, DecodeInode, BytesToWords;
    OnlyBlockKeepsUsed(d, e, IBlock(i));
    assert Elems([]) == {};
  }

  /** Writing back an inode with nothing but another access time. */
  lemma TouchReplaces(d: Image, e: Image, i: nat, lastInum: nat)
    requires Sound(d, lastInum) && i in Store(d)
    requires InodeAt(e, i) == InodeAt(d, i).(atime := InodeAt(e, i).atime)
    requires OnlyBlockWritten(d, e, IBlock(i))
    ensures Live(e, i) && Replaced(d, e, i, OwnedBy(d, i)) && FileOk(e, InodeAt(e, i))
    ensures FileAt(e, i) == FileAt(d, i)
  {
    hide Used, DecodeInode, Owned, DataBlocks, Sound;
    SoundInode(d, lastInum, i);
    var ino := InodeAt(d, i);
    var touched := InodeAt(e, i);
    TimesDoNotMatter(d, touched, ino);
    SameBlocksOf(d, e, i, touched, OwnedBy(d, i));
    OnlyBlockKeepsUsed(d, e, IBlock(i));
    OwnedIsUsed(d, lastInum, i);
  }

  lemma RemoveReplaces(d0: Image, d1: Image, d2: Image, i: nat)
    requires i < INODE_NUM && Released(d0, d1, OwnedBy(d0, i)) && !Live(d2, i)
    requires OnlyBlockWritten(d1, d2, IBlock(i))
    ensures Replaced(d0, d2, i, [])
  {
    hide Used, DecodeInode, Owned;
    OnlyBlockKeepsUsed(d1, d2, IBlock(i));
    assert Elems([]) == {};
  }

  /** The blocks outside the bitmap that an operation on one inode may write. */
  function Written(inum: nat, ids: seq<U32>): seq<U32>
    requires inum < INODE_NUM
  {
    [IBlock(inum)] + ids
  }

  /** Replacing a file's data leaves every other inode alone, writes only the bitmap, the
      inode's own block and the file's new blocks, and moves the number of set bits by the
      difference of the two sizes. */
  ghost predicate ReplaceEffect(d: Image, e: Image, inum: nat, size: nat) {
    && inum < INODE_NUM
    && OthersKept(d, e, inum)
    && SameOutside(d, e, Written(inum, OwnedBy(e, inum)))
    && |Used(e)| + OwnedCount(InodeAt(d, inum).size) == |Used(d)| + OwnedCount(size)
  }

  /** What writing a file does beside changing its data. */
  ghost predicate WriteEffect(d: Image, e: Image, inum: nat, size: U32, now: U32) {
    && inum < INODE_NUM
    && InodeAt(e, inum) == InodeAt(d, inum).(size := size, mtime := now, ctime := now, blocks := InodeAt(e, inum).blocks)
    && ReplaceEffect(d, e, inum, size)
  }

  ghost predicate RemoveEffect(d: Image, e: Image, inum: nat) {
    && inum < INODE_NUM
    && !Live(e, inum)
    && OthersKept(d, e, inum)
    && SameOutside(d, e, Written(inum, []))
    && |Used(e)| + OwnedCount(InodeAt(d, inum).size) == |Used(d)|
  }

  lemma ReplacedFrame(d: Image, e: Image, i: nat, ids: seq<U32>)
    requires i < INODE_NUM && Replaced(d, e, i, ids)
    ensures OwnedBy(e, i) == ids && SameOutside(d, e, Written(i, ids))
  {
    hide Used, OwnedBy, InodeAt;
  }

  lemma RewriteCounts(d: Image, e: Image, lastInum: nat, i: nat, data: seq<Byte>)
    requires Sound(d, lastInum) && Sound(e, lastInum) && i in Store(d)
    requires exists kind: U16 :: Store(e) == Store(d)[i := File(kind, data)]
    ensures |Used(e)| + OwnedCount(|Store(d)[i].data|) == |Used(d)| + OwnedCount(|data|)
  {
    hide Used;
    SoundInode(d, lastInum, i);
    var kind: U16 :| Store(e) == Store(d)[i := File(kind, data)];
    hide Store, Sound;
    UsedCount(d, lastInum);
    UsedCount(e, lastInum);
    DemandBelowUpdate(Store(d), i, File(kind, data), INODE_NUM);
  }

  lemma RemoveCounts(d: Image, e: Image, lastInum: nat, i: nat)
    requires Sound(d, lastInum) && Sound(e, lastInum) && i in Store(d)
    requires Store(e) == Store(d) - {i}
    ensures |Used(e)| + OwnedCount(|Store(d)[i].data|) == |Used(d)|
  {
    hide Used;
    SoundInode(d, lastInum, i);
    hide Store, Sound;
    UsedCount(d, lastInum);
    UsedCount(e, lastInum);
    DemandBelowRemove(Store(d), i, INODE_NUM);
  }

  /** The three stages of write_file: old blocks given back, data stored in new ones, inode written. */
  ghost predicate Rewrote(d0: Image, d1: Image, d2: Image, d3: Image, inum: nat, buf: seq<Byte>) {
    && OnlyInodeWritten(d2, d3, inum)
    && InodeAt(d3, inum).kind == InodeAt(d0, inum).kind
    && InodeAt(d3, inum).size == |buf|
    && Released(d0, d1, OwnedBy(d0, inum))
    && FileOk(d2, InodeAt(d3, inum))
    && Allocated(d1, d2, Owned(d2, InodeAt(d3, inum)))
    && Gather(d2, DataBlocks(d2, InodeAt(d3, inum)), |buf|) == buf
  }

  lemma FinishWrite(d0: Image, d1: Image, d2: Image, d3: Image, inum: nat, lastInum: nat, buf: seq<Byte>)
    requires Sound(d0, lastInum) && inum in Store(d0)
    requires Rewrote(d0, d1, d2, d3, inum, buf)
    ensures Sound(d3, lastInum) && Store(d3) == Store(d0)[inum := File(Store(d0)[inum].kind, buf)]
    ensures ReplaceEffect(d0, d3, inum, |buf|)
  {
    hide Sound, Replaced, DecodeInode, FileOk, Owned, DataBlocks, Gather, Used, Released, Allocated, Store, OwnedBy, IBlock;
    SoundInode(d0, lastInum, inum);
    var ids := Owned(d2, InodeAt(d3, inum));
    RewriteReplaces(d0, d1, d2, d3, inum, ids, lastInum);
    ReplacedIsSound(d0, d3, inum, ids, lastInum, lastInum);
    assert FileAt(d3, inum) == File(Store(d0)[inum].kind, buf);
    RewriteCounts(d0, d3, lastInum, inum, buf);
    ReplacedFrame(d0, d3, inum, ids);
  }

  lemma FinishRemove(d0: Image, d1: Image, d2: Image, inum: nat, lastInum: nat)
    requires Sound(d0, lastInum) && inum in Store(d0)
    requires Released(d0, d1, OwnedBy(d0, inum))
    requires OnlyInodeWritten(d1, d2, inum) && !Live(d2, inum)
    ensures Sound(d2, lastInum) && Store(d2) == Store(d0) - {inum}
    ensures RemoveEffect(d0, d2, inum)
  {
    hide Sound, Replaced, DecodeInode, Owned, Used, Released, Store, OwnedBy, IBlock, Live;
    SoundInode(d0, lastInum, inum);
    RemoveReplaces(d0, d1, d2, inum);
    ReplacedIsSound(d0, d2, inum, [], lastInum, lastInum);
    RemoveCounts(d0, d2, lastInum, inum);
    ReplacedFrame(d0, d2, inum, []);
  }
}
