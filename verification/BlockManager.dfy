/** The disk and the block allocator on top of it (classes disk and block_manager). */
module BlockLayer {
  import opened Bytes
  import opened Geometry
  import opened Bitmap

  class BlockManager {
    const blocks: array<Block>

    ghost predicate Valid() {
      blocks.Length == BLOCK_NUM
    }

    /** The contents of the whole disk. */
    ghost function Disk(): Image
      requires Valid()
      reads blocks
    {
      blocks[..]
    }

    constructor ()
      ensures Valid() && fresh(blocks)
      ensures forall b :: 0 <= b < BLOCK_NUM ==> Disk()[b] == ZERO_BLOCK
    {
      blocks := new Block[BLOCK_NUM](_ => ZERO_BLOCK);
    }

    method ReadBlock(id: nat) returns (buf: Block)
      requires Valid() && id < BLOCK_NUM
      ensures buf == Disk()[id]
    {
      buf := blocks[id];
    }

    method WriteBlock(id: nat, buf: Block)
      requires Valid() && id < BLOCK_NUM
      modifies blocks
      ensures Disk() == old(Disk())[id := buf]
    {
      blocks[id] := buf;
    }

    /** Take the lowest-numbered free id over all the bitmap blocks, or return -1 when
        there is none. */
    method AllocBlock() returns (id: U32)
      requires Valid()
      modifies blocks
      ensures (LowestClear(old(Disk()), id) && Disk() == MarkBit(old(Disk()), id, true))
           || (&& id == NO_BLOCK
               && Disk() == old(Disk())
               && forall j: nat :: DATA_START <= j < SCAN_END ==> BitAt(Disk(), j))
    {
      var bitmapId := BBlock(0);
      while bitmapId <= BBlock(BLOCK_NUM - 1)
        invariant BBlock(0) <= bitmapId <= BBlock(BLOCK_NUM - 1) + 1
        invariant Disk() == old(Disk())
        invariant forall j: nat :: DATA_START <= j < bitmapId * BPB ==> BitAt(Disk(), j)
      {
        var buf := ReadBlock(bitmapId);
        var i := 0;
        while i < BPB
          invariant 0 <= i <= BPB
          invariant buf == Disk()[bitmapId] && Disk() == old(Disk())
          invariant forall k: nat :: k < i ==> BlockBit(buf, k)
        {
          var index := i / 8;
          var offset := i % 8;
          if !TestBit(buf[index], offset) {
            id := bitmapId * BPB + i;
            ScanFound(Disk(), bitmapId, i, id);
            buf := buf[index := SetBit(buf[index], offset)];
            WriteBlock(bitmapId, buf);
            return;
          }
          i := i + 1;
        }
        ScanBlock(Disk(), bitmapId);
        bitmapId := bitmapId + 1;
      }
      id := NO_BLOCK;
    }

    /** Clear the bit of id and change nothing else. */
    method FreeBlock(id: U32)
      requires Valid() && id < BIT_LIMIT
      modifies blocks
      ensures Disk() == MarkBit(old(Disk()), id, false)
    {
      var bitmapId := BBlock(id) - BBlock(0);
      var buf := ReadBlock(bitmapId);
      var index := id % BPB / 8;
      var offset := id % BPB % 8;
      buf := buf[index := ClearBit(buf[index], offset)];
      WriteBlock(bitmapId, buf);
    }
  }
}
