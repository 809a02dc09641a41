/** A disk filled to its last block, and what alloc_block does then. */
module FullDisk {
  import opened Bytes
  import opened Geometry
  import opened Bitmap
  import opened Layout
  import opened Ownership
  import opened Transfer
  import opened InodeLayer

  lemma DemandOfNew(s: map<nat, File>, i: nat, f: File)
    requires i < INODE_NUM && i !in s
    ensures Demand(s[i := f]) == Demand(s) + OwnedCount(|f.data|)
  {
    DemandBelowUpdate(s, i, f, INODE_NUM);
  }

  /** A new file of the given number of blocks, and what it adds to the demand. */
  method AddFile(im: InodeManager, blocks: nat, now: U32)
    requires im.Valid() && im.lastInum + 1 < INODE_NUM && blocks <= MAXFILE
    requires Demand(im.Files()) + OwnedCount(blocks * BLOCK_SIZE) <= DATA_BLOCKS
    modifies im, im.bm.blocks
    ensures im.Valid() && im.lastInum == old(im.lastInum) + 1
    ensures Demand(im.Files()) == old(Demand(im.Files())) + OwnedCount(blocks * BLOCK_SIZE)
  {
    hide Sound, Store, Demand, WriteEffect, DecodeInode, OwnedCount;
    ghost var before := im.Files();
    var inum := im.AllocInode(T_FILE, now);
    var buf := seq(blocks * BLOCK_SIZE, _ => 0);
    ghost var f := File(T_FILE, buf);
    DemandOfNew(before, inum, f);
    assert before[inum := File(T_FILE, [])][inum := f] == before[inum := f];
    im.WriteFile(inum, buf, now);
  }

  lemma EmptyRootDemand(s: map<nat, File>)
    requires s == map[1 := File(T_DIR, [])]
    ensures Demand(s) == 0
  {
    EmptyFilesNeedNothing(s, INODE_NUM);
  }

  lemma Sizes()
    ensures OwnedCount(MAXFILE * BLOCK_SIZE) == 229 && OwnedCount(73 * BLOCK_SIZE) == 73
    ensures 107 * 229 + 73 == DATA_BLOCKS
  {}

  lemma NotEverythingIsTaken(d: Image, lastInum: nat)
    requires Sound(d, lastInum)
    ensures exists j: nat :: DATA_START <= j < SCAN_END && !BitAt(d, j)
  {
    UsedIsOnDisk(d, lastInum);
    var end: nat := BLOCK_NUM;
    assert BitAt(d, end) ==> end in Used(d);
  }

  /** 107 files of the largest size and one of 73 blocks leave a sound disk without a free block.
      alloc_block then answers with block 32768, the first one past the end of the disk. */
  method AllocOnFullDisk(now: U32) returns (ghost full: Image, ghost last: nat, id: U32)
    ensures Sound(full, last) && Demand(Store(full)) == DATA_BLOCKS
    ensures LowestClear(full, id) && id == BLOCK_NUM
  {
    hide Sound, Store, Demand, LowestClear, OwnedCount, Used, MarkBit;
    var im := new InodeManager(now);
    EmptyRootDemand(im.Files());
    Sizes();
    for k := 0 to 107
      invariant fresh(im) && fresh(im.bm.blocks)
      invariant im.Valid() && im.lastInum == k + 1 && Demand(im.Files()) == k * 229
    {
      AddFile(im, MAXFILE, now);
    }
    AddFile(im, 73, now);
    full, last := im.bm.Disk(), im.lastInum;
    id := im.bm.AllocBlock();
    NotEverythingIsTaken(full, last);
    SoundAllocIsOnDiskIff(full, last, id);
  }

}
