/** The shape of the disk: the macros of inode_manager.h and the regions they cut out. */
module Geometry {
  import opened Bytes

  const BLOCK_SIZE: nat := 512
  const BLOCK_NUM: nat := 1024 * 1024 * 16 / BLOCK_SIZE
  const INODE_NUM: nat := 1024
  const IPB: nat := 1
  const BPB: nat := BLOCK_SIZE * 8
  const NDIRECT: nat := 100
  const NINDIRECT: nat := BLOCK_SIZE / 4
  const MAXFILE: nat := NDIRECT + NINDIRECT

  /** Disk block holding inode i. */
  function IBlock(i: nat): nat {
    BLOCK_NUM / BPB + i / IPB + 3
  }

  /** Disk block holding the bit for block b, as the macro counts. */
  function BBlock(b: nat): nat {
    b / BPB + 2
  }

  /** The ids that alloc_block can produce start here ... */
  const DATA_START: nat := BBlock(0) * BPB
  /** ... and end here, although the disk ends at BLOCK_NUM. */
  const SCAN_END: nat := (BBlock(BLOCK_NUM - 1) + 1) * BPB
  /** The first inode number whose block would be a data block. Numbers from INODE_NUM up to it
      fall into blocks that nothing else uses. */
  const INUM_LIMIT: nat := DATA_START - IBlock(0)
  /** What alloc_block returns when every bit is set: -1 as a blockid_t. */
  const NO_BLOCK: U32 := 0xFFFF_FFFF
  /** Number of usable data blocks. */
  const DATA_BLOCKS: nat := BLOCK_NUM - DATA_START

  type Block = b: seq<Byte> | |b| == BLOCK_SIZE witness seq(BLOCK_SIZE, _ => 0)
  const ZERO_BLOCK: Block := seq(BLOCK_SIZE, _ => 0)
  type Image = d: seq<Block> | |d| == BLOCK_NUM witness seq<Block>(BLOCK_NUM, _ => ZERO_BLOCK)

  /** Bitmap blocks are 2..9, inode blocks 11..1034, data blocks 8192..32767: three
      regions that never meet; and different inodes have different blocks. */
  lemma RegionsAreSeparate(i: nat, j: nat, id: nat)
    requires i < INODE_NUM && j < INODE_NUM && DATA_START <= id < SCAN_END
    ensures BBlock(0) == 2 && BBlock(BLOCK_NUM - 1) == 9
    ensures IBlock(0) == 11 && IBlock(INODE_NUM - 1) == 1034
    ensures DATA_START == 8192 && SCAN_END == 40960 && DATA_BLOCKS == 24576
    ensures BBlock(0) <= id / BPB <= BBlock(BLOCK_NUM - 1) < IBlock(i) < DATA_START
    ensures id / BPB == BBlock(id) - BBlock(0)
    ensures IBlock(i) == IBlock(j) ==> i == j
    ensures INUM_LIMIT == 8181 && IBlock(INUM_LIMIT - 1) < DATA_START == IBlock(INUM_LIMIT)
  {}
}
