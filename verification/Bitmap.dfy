/** The free-block bitmap: one bit for each block id, read and written inside whole disk blocks. */
module Bitmap {
  import opened Bytes
  import opened Geometry

  /** Ids whose bit lies somewhere on the disk. */
  const BIT_LIMIT: nat := BLOCK_NUM * BPB

  predicate BlockBit(b: Block, i: nat)
    requires i < BPB
  {
    TestBit(b[i / 8], i % 8)
  }

  function PutBlockBit(b: Block, i: nat, on: bool): Block
    requires i < BPB
  {
    b[i / 8 := PutBit(b[i / 8], i % 8, on)]
  }

  /** The bit of block id: bit id % 4096 of disk block id / 4096. */
  predicate BitAt(d: Image, id: nat)
    requires id < BIT_LIMIT
  {
    BlockBit(d[id / BPB], id % BPB)
  }

  function MarkBit(d: Image, id: nat, on: bool): Image
    requires id < BIT_LIMIT
  {
    d[id / BPB := PutBlockBit(d[id / BPB], id % BPB, on)]
  }

  /** The ids alloc_block considers taken. */
  function Used(d: Image): set<nat> {
    set id: nat | DATA_START <= id < SCAN_END && BitAt(d, id)
  }

  /** What alloc_block looks for. */
  ghost predicate LowestClear(d: Image, id: nat) {
    && DATA_START <= id < SCAN_END
    && !BitAt(d, id)
    && forall j: nat :: DATA_START <= j < id ==> BitAt(d, j)
  }

  lemma PutBlockBitAt(b: Block, i: nat, j: nat, on: bool)
    requires i < BPB && j < BPB
    ensures BlockBit(PutBlockBit(b, i, on), j) <==> if j == i then on else BlockBit(b, j)
  {
    if i / 8 == j / 8 {
      PutBitAt(b[i / 8], j % 8, i % 8, on);
    }
  }

  /** Marking one id changes the bit of that id and of no other id on the whole disk. */
  lemma MarkBitAt(d: Image, id: nat, j: nat, on: bool)
    requires id < BIT_LIMIT && j < BIT_LIMIT
    ensures BitAt(MarkBit(d, id, on), j) <==> if j == id then on else BitAt(d, j)
  {
    if id / BPB == j / BPB {
      PutBlockBitAt(d[id / BPB], id % BPB, j % BPB, on);
    }
  }

  /** Where the bit of an id is, in plain numbers. */
  lemma BitPlace(d: Image, id: nat)
    requires id < 32768 * 4096
    ensures BitAt(d, id) <==> TestBit(d[id / 4096][id % 4096 / 8], id % 8)
  {
    assert id % 4096 % 8 == id % 8;
  }

  /** Freeing an id that was just allocated restores every byte of the disk. */
  lemma FreeUndoesAlloc(d: Image, id: nat)
    requires id < BIT_LIMIT && !BitAt(d, id)
    ensures MarkBit(MarkBit(d, id, true), id, false) == d
  {
    var b := d[id / BPB];
    var i := id % BPB;
    ClearUndoesSet(b[i / 8], i % 8);
    assert PutBlockBit(PutBlockBit(b, i, true), i, false) == b;
  }

  /** The id alloc_block forms from a bitmap block and a bit is the one free_block takes apart. */
  lemma BitAddress(bitmapId: nat, i: nat, id: nat)
    requires i < BPB && id == bitmapId * BPB + i
    ensures id / BPB == bitmapId && id % BPB == i
    ensures id % BPB / 8 == i / 8 && id % BPB % 8 == id % 8
  {}

  /** The scan's step from one bitmap block to the next. */
  lemma ScanBlock(d: Image, bitmapId: nat)
    requires BBlock(0) <= bitmapId <= BBlock(BLOCK_NUM - 1)
    requires forall j: nat :: DATA_START <= j < bitmapId * BPB ==> BitAt(d, j)
    requires forall k: nat :: k < BPB ==> BlockBit(d[bitmapId], k)
    ensures forall j: nat :: DATA_START <= j < (bitmapId + 1) * BPB ==> BitAt(d, j)
  {
    forall j: nat | bitmapId * BPB <= j < (bitmapId + 1) * BPB ensures BitAt(d, j) {
      BitAddress(bitmapId, j - bitmapId * BPB, j);
    }
  }

  /** The first clear bit of the first bitmap block that has one. */
  lemma ScanFound(d: Image, bitmapId: nat, i: nat, id: nat)
    requires BBlock(0) <= bitmapId <= BBlock(BLOCK_NUM - 1) && i < BPB
    requires id == bitmapId * BPB + i
    requires forall j: nat :: DATA_START <= j < bitmapId * BPB ==> BitAt(d, j)
    requires forall k: nat :: k < i ==> BlockBit(d[bitmapId], k)
    requires !BlockBit(d[bitmapId], i)
    ensures LowestClear(d, id)
    ensures MarkBit(d, id, true) == d[bitmapId := PutBlockBit(d[bitmapId], i, true)]
  {
    BitAddress(bitmapId, i, id);
    forall j: nat | bitmapId * BPB <= j < id ensures BitAt(d, j) {
      BitAddress(bitmapId, j - bitmapId * BPB, j);
    }
  }

  lemma UsedAfterMark(d: Image, id: nat, on: bool)
    requires DATA_START <= id < SCAN_END
    ensures Used(MarkBit(d, id, on)) == if on then Used(d) + {id} else Used(d) - {id}
  {
    forall j: nat | DATA_START <= j < SCAN_END
      ensures BitAt(MarkBit(d, id, on), j) <==> if j == id then on else BitAt(d, j)
    {
      MarkBitAt(d, id, j, on);
    }
  }

  /** Only the bitmap blocks decide which ids are used. */
  lemma UsedFrame(d: Image, e: Image)
    requires forall b :: BBlock(0) <= b <= BBlock(BLOCK_NUM - 1) ==> d[b] == e[b]
    ensures Used(d) == Used(e)
  {
    forall j: nat | DATA_START <= j < SCAN_END
      ensures BitAt(d, j) <==> BitAt(e, j)
    {
      assert BBlock(0) <= j / BPB <= BBlock(BLOCK_NUM - 1);
    }
  }

  lemma RangeSize(s: set<nat>, lo: nat, hi: nat)
    requires lo <= hi
    requires forall j: nat :: lo <= j < hi ==> j in s
    ensures |s| >= hi - lo
    decreases hi
  {
    if lo == hi {
    } else {
      RangeSize(s - {hi - 1}, lo, hi - 1);
    }
  }

  lemma TakenIds(d: Image, hi: nat)
    requires DATA_START <= hi <= SCAN_END
    requires forall j: nat :: DATA_START <= j < hi ==> BitAt(d, j)
    ensures |Used(d)| >= hi - DATA_START
  {
    RangeSize(Used(d), DATA_START, hi);
  }

  lemma LowestClearSplitsUsed(d: Image, id: nat)
    requires LowestClear(d, id)
    ensures DATA_START <= id && id !in Used(d)
    ensures forall j: nat :: DATA_START <= j < id ==> j in Used(d)
  {}

  /** While fewer than 24576 blocks are taken, the block found lies on the disk. */
  lemma LowestClearIsOnDisk(d: Image, id: nat)
    requires LowestClear(d, id) && |Used(d)| < DATA_BLOCKS
    ensures id < BLOCK_NUM && id !in Used(d)
  {
    if id >= BLOCK_NUM {
      TakenIds(d, BLOCK_NUM);
    }
  }

  lemma SomeBitIsClear(d: Image)
    requires |Used(d)| < DATA_BLOCKS
    ensures exists j: nat :: DATA_START <= j < BLOCK_NUM && !BitAt(d, j)
  {
    if forall j: nat :: DATA_START <= j < BLOCK_NUM ==> BitAt(d, j) {
      TakenIds(d, BLOCK_NUM);
    }
  }

  lemma ZeroDiskUsesNothing(d: Image)
    requires forall b :: 0 <= b < BLOCK_NUM ==> d[b] == ZERO_BLOCK
    ensures Used(d) == {}
  {
    forall j: nat | DATA_START <= j < SCAN_END ensures !BitAt(d, j) {
      ZeroHasNoBits(j % BPB % 8);
    }
  }
}
