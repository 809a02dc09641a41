/** Why replacing one inode and its blocks keeps the disk sound, whatever happened in between,
    and how many bits of the bitmap are set in a sound disk. */
module Ownership {
  import opened Bytes
  import opened Geometry
  import opened Bitmap
  import opened Layout

  lemma OwnedShape(d: Image, ino: DiskInode)
    requires FileOk(d, ino)
    ensures |DataBlocks(d, ino)| == NumBlocks(ino.size)
    ensures |Owned(d, ino)| == OwnedCount(ino.size)
    ensures forall k :: 0 <= k < NumBlocks(ino.size) ==> DataBlocks(d, ino)[k] == Owned(d, ino)[if k < NDIRECT then k else k + 1]
    ensures NumBlocks(ino.size) > NDIRECT ==> Owned(d, ino)[NDIRECT] == ino.blocks[NDIRECT]
  {
    hide BytesToWords;
  }

  lemma SameBlocks(d: Image, e: Image, ino: DiskInode)
    requires FileOk(d, ino)
    requires forall a :: 0 <= a < |Owned(d, ino)| ==> e[Owned(d, ino)[a]] == d[Owned(d, ino)[a]]
    ensures Owned(e, ino) == Owned(d, ino)
    ensures DataBlocks(e, ino) == DataBlocks(d, ino)
    ensures Gather(e, DataBlocks(e, ino), ino.size) == Gather(d, DataBlocks(d, ino), ino.size)
    ensures FileOk(e, ino)
  {
    hide BytesToWords;
    OwnedShape(d, ino);
    assert IndirectWords(e, ino) == IndirectWords(d, ino);
    var ids := DataBlocks(d, ino);
    forall k: nat | k < ino.size ensures Fetch(e, ids, k) == Fetch(d, ids, k) {
      assert k / BLOCK_SIZE < |ids|;
    }
  }

  /** An inode, what it owns and what it holds depend on its own inode block and its own blocks only. */
  lemma InodeFrame(d: Image, e: Image, i: nat)
    requires i < INODE_NUM
    requires e[IBlock(i)] == d[IBlock(i)]
    requires Live(d, i) ==> FileOk(d, InodeAt(d, i))
    requires forall a :: 0 <= a < |OwnedBy(d, i)| ==> OwnedBy(d, i)[a] < BLOCK_NUM && e[OwnedBy(d, i)[a]] == d[OwnedBy(d, i)[a]]
    ensures InodeAt(e, i) == InodeAt(d, i)
    ensures OwnedBy(e, i) == OwnedBy(d, i)
    ensures Live(d, i) ==> FileAt(e, i) == FileAt(d, i)
    ensures Live(d, i) ==> FileOk(e, InodeAt(e, i))
  {
    hide DecodeInode, BytesToWords;
    if Live(d, i) {
      assert OwnedBy(d, i) == Owned(d, InodeAt(d, i));
      SameBlocks(d, e, InodeAt(d, i));
    }
  }

  /** Inode inum now owns exactly ids, nothing else on the disk changed outside the bitmap,
      and the bitmap lost what inum owned before and gained ids. */
  ghost predicate Replaced(d: Image, e: Image, inum: nat, ids: seq<U32>)
    requires inum < INODE_NUM
  {
    && OwnedBy(e, inum) == ids
    && NoDup(ids) && InData(ids)
    && (forall a :: 0 <= a < |ids| ==> ids[a] in OwnedBy(d, inum) || ids[a] !in Used(d))
    && Used(e) == (Used(d) - Elems(OwnedBy(d, inum))) + Elems(ids)
    && (forall b: nat :: b < BLOCK_NUM && !IsBitmapBlock(b) && b != IBlock(inum) && b !in ids ==> e[b] == d[b])
  }

  /** A block of one inode is marked, lies in the data region, and belongs to no other inode. */
  lemma OwnedOnce(d: Image, lastInum: nat, i: nat, j: nat, x: U32)
    requires Sound(d, lastInum)
    requires i < INODE_NUM && j < INODE_NUM && i != j && x in OwnedBy(d, i)
    ensures x in Used(d) && x !in OwnedBy(d, j) && DATA_START <= x < BLOCK_NUM
  {
    hide DecodeInode, Owned, Used, IBlock, InodeAt;
    var n: nat := x;
    assert n in OwnedBelow(d, INODE_NUM);
    assert Disjoint(OwnedBy(d, i), OwnedBy(d, j));
    assert Live(d, i) && InData(OwnedBy(d, i));
  }

  lemma Spared(d: Image, e: Image, inum: nat, ids: seq<U32>, lastInum: nat, i: nat, x: U32)
    requires Sound(d, lastInum)
    requires inum < INODE_NUM && Replaced(d, e, inum, ids)
    requires i < INODE_NUM && i != inum && x in OwnedBy(d, i)
    ensures x !in ids && x < BLOCK_NUM && e[x] == d[x]
  {
    hide DecodeInode, OwnedBy, Used, Live, Sound;
    OwnedOnce(d, lastInum, i, inum, x);
    assert x !in ids;
    var b: nat := x;
    assert !IsBitmapBlock(b) && b != IBlock(inum);
  }

  lemma OthersUntouched(d: Image, e: Image, inum: nat, ids: seq<U32>, lastInum: nat, i: nat)
    requires Sound(d, lastInum)
    requires inum < INODE_NUM && Replaced(d, e, inum, ids)
    requires i < INODE_NUM && i != inum
    ensures InodeAt(e, i) == InodeAt(d, i)
    ensures OwnedBy(e, i) == OwnedBy(d, i)
    ensures Live(d, i) ==> FileAt(e, i) == FileAt(d, i) && FileOk(e, InodeAt(e, i))
    ensures Disjoint(OwnedBy(d, i), ids) && Disjoint(ids, OwnedBy(d, i))
  {
    hide DecodeInode, OwnedBy, FileAt, Used, InodeAt, Live, Owned, FileOk;
    var own := OwnedBy(d, i);
    forall a | 0 <= a < |own|
      ensures own[a] !in ids && own[a] < BLOCK_NUM && e[own[a]] == d[own[a]]
    {
      Spared(d, e, inum, ids, lastInum, i, own[a]);
    }
    var b: nat := IBlock(i);
    assert b !in ids by {
      assert b < DATA_START;
    }
    assert e[b] == d[b];
    InodeFrame(d, e, i);
  }

  lemma BitmapStillExact(d: Image, e: Image, inum: nat, ids: seq<U32>, lastInum: nat)
    requires Sound(d, lastInum)
    requires inum < INODE_NUM && Replaced(d, e, inum, ids)
    requires forall i: nat :: i < INODE_NUM && i != inum ==> OwnedBy(e, i) == OwnedBy(d, i)
    ensures Used(e) == OwnedBelow(e, INODE_NUM)
  {
    hide DecodeInode, Owned, FileAt, Used, IBlock, Live, InodeAt, OwnedBy;
    var rest := Used(d) - Elems(OwnedBy(d, inum));
    forall x: nat ensures x in Used(e) <==> x in OwnedBelow(e, INODE_NUM) {
      if x in rest {
        var i: nat :| i < INODE_NUM && x in OwnedBy(d, i);
        assert x in OwnedBy(e, i);
      } else if x in ids {
        assert x in OwnedBy(e, inum);
      }
    }
  }

  /** The heart of the store: the disk is sound again, and as a map it changed at inum only. */
  lemma ReplacedIsSound(d: Image, e: Image, inum: nat, ids: seq<U32>, lastInum: nat, lastInum': nat)
    requires Sound(d, lastInum) && lastInum <= lastInum' < INUM_LIMIT
    requires inum < INODE_NUM && Replaced(d, e, inum, ids)
    requires Live(e, inum) ==> 1 <= inum <= lastInum' && FileOk(e, InodeAt(e, inum))
    ensures Sound(e, lastInum')
    ensures Store(e) == if Live(e, inum) then Store(d)[inum := FileAt(e, inum)] else Store(d) - {inum}
    ensures forall i: nat :: i < INODE_NUM && i != inum ==> InodeAt(e, i) == InodeAt(d, i)
  {
    hide DecodeInode, Owned, FileAt, Used, IBlock, FileOk, OwnedBy, InodeAt, OwnedBelow;
    forall i: nat | i < INODE_NUM && i != inum
      ensures InodeAt(e, i) == InodeAt(d, i) && OwnedBy(e, i) == OwnedBy(d, i)
      ensures Live(d, i) ==> FileAt(e, i) == FileAt(d, i) && FileOk(e, InodeAt(e, i))
      ensures Disjoint(OwnedBy(d, i), ids) && Disjoint(ids, OwnedBy(d, i))
    {
      OthersUntouched(d, e, inum, ids, lastInum, i);
    }
    BitmapStillExact(d, e, inum, ids, lastInum);
  }

  // ---------------------------------------------------------------- counting blocks

  /** Blocks needed by the files numbered below n. */
  function DemandBelow(s: map<nat, File>, n: nat): nat {
    if n == 0 then 0
    else DemandBelow(s, n - 1) + if n - 1 in s then OwnedCount(|s[n - 1].data|) else 0
  }

  lemma {:induction false} EmptyFilesNeedNothing(s: map<nat, File>, n: nat)
    requires forall i :: i in s ==> s[i].data == []
    ensures DemandBelow(s, n) == 0
  {
    if n == 0 {
    } else {
      EmptyFilesNeedNothing(s, n - 1);
    }
  }

  /** Blocks needed by a whole store. */
  function Demand(s: map<nat, File>): nat {
    DemandBelow(s, INODE_NUM)
  }

  lemma {:induction false} DemandBelowUpdate(s: map<nat, File>, i: nat, f: File, n: nat)
    ensures DemandBelow(s[i := f], n) + (if i < n && i in s then OwnedCount(|s[i].data|) else 0)
         == DemandBelow(s, n) + if i < n then OwnedCount(|f.data|) else 0
  {
    if n == 0 {
    } else {
      DemandBelowUpdate(s, i, f, n - 1);
    }
  }

  lemma {:induction false} DemandBelowRemove(s: map<nat, File>, i: nat, n: nat)
    ensures DemandBelow(s - {i}, n) + (if i < n && i in s then OwnedCount(|s[i].data|) else 0) == DemandBelow(s, n)
  {
    if n == 0 {
    } else {
      DemandBelowRemove(s, i, n - 1);
    }
  }

  lemma {:induction false} ElemsSize(s: seq<U32>)
    requires NoDup(s)
    ensures |Elems(s)| == |s|
  {
    if s == [] {
      assert Elems(s) == {};
    } else {
      var n := |s| - 1;
      ElemsSize(s[..n]);
      assert s == s[..n] + [s[n]];
      assert Elems(s) == Elems(s[..n]) + {s[n]};
    }
  }

  lemma UnionSize(a: set<nat>, b: set<nat>)
    requires a !! b
    ensures |a + b| == |a| + |b|
  {}

  lemma SplitOwned(d: Image, lastInum: nat, i: nat)
    requires Sound(d, lastInum) && i < INODE_NUM
    ensures OwnedBelow(d, i + 1) == OwnedBelow(d, i) + Elems(OwnedBy(d, i))
    ensures OwnedBelow(d, i) !! Elems(OwnedBy(d, i))
  {
    hide DecodeInode, Owned, FileAt, Used, IBlock, Live, InodeAt, OwnedBy;
    forall x: nat | x in OwnedBelow(d, i) ensures x !in OwnedBy(d, i) {
      var j: nat :| j < i && x in OwnedBy(d, j);
      assert Disjoint(OwnedBy(d, j), OwnedBy(d, i));
    }
  }

  lemma OwnCount(d: Image, lastInum: nat, i: nat)
    requires Sound(d, lastInum) && i < INODE_NUM
    ensures |Elems(OwnedBy(d, i))| == if i in Store(d) then OwnedCount(|Store(d)[i].data|) else 0
  {
    hide DecodeInode, Owned, Used, IBlock, DataBlocks;
    var own := OwnedBy(d, i);
    assert NoDup(own);
    ElemsSize(own);
  }

  lemma {:induction false} OwnedBelowSize(d: Image, lastInum: nat, n: nat)
    requires Sound(d, lastInum) && n <= INODE_NUM
    ensures |OwnedBelow(d, n)| == DemandBelow(Store(d), n)
  {
    if n == 0 {
      hide OwnedBy, Store, Sound;
      assert OwnedBelow(d, 0) == {};
    } else {
      hide Owned, Used, OwnedBelow, OwnedBy, Live, Store, Sound, Elems, OwnedCount;
      var i := n - 1;
      var own := OwnedBy(d, i);
      OwnedBelowSize(d, lastInum, i);
      SplitOwned(d, lastInum, i);
      OwnCount(d, lastInum, i);
      UnionSize(OwnedBelow(d, i), Elems(own));
    }
  }

  /** Conservation: the number of set bits is determined by the sizes of the live files. */
  lemma UsedCount(d: Image, lastInum: nat)
    requires Sound(d, lastInum)
    ensures |Used(d)| == Demand(Store(d))
  {
    hide Used, OwnedBelow, Store;
    OwnedBelowSize(d, lastInum, INODE_NUM);
  }

  lemma {:induction false} RangeBound(s: set<nat>, lo: nat, hi: nat)
    requires lo <= hi && forall x :: x in s ==> lo <= x < hi
    ensures |s| <= hi - lo
    decreases hi
  {
    if lo == hi {
      assert s == {};
    } else {
      RangeBound(s - {hi - 1}, lo, hi - 1);
    }
  }

  lemma UsedIsOnDisk(d: Image, lastInum: nat)
    requires Sound(d, lastInum)
    ensures forall x :: x in Used(d) ==> DATA_START <= x < BLOCK_NUM
  {
    hide Used, Store, Owned, DecodeInode;
    forall x | x in Used(d) ensures DATA_START <= x < BLOCK_NUM {
      var i: nat :| i < INODE_NUM && x in OwnedBy(d, i);
      assert Live(d, i) && InData(OwnedBy(d, i));
    }
  }

  /** A sound disk never holds more than there are data blocks. */
  lemma SoundFits(d: Image, lastInum: nat)
    requires Sound(d, lastInum)
    ensures Demand(Store(d)) <= DATA_BLOCKS
  {
    hide Used, Store, Sound;
    UsedCount(d, lastInum);
    UsedIsOnDisk(d, lastInum);
    RangeBound(Used(d), DATA_START, BLOCK_NUM);
  }

  /** alloc_block does not know where the disk ends: what it returns lies on the disk exactly
      when fewer than 24576 blocks are taken, and otherwise it is the first id past the end. */
  lemma AllocIsOnDiskIff(d: Image, id: nat)
    requires LowestClear(d, id) && forall x :: x in Used(d) ==> x < BLOCK_NUM
    ensures id < BLOCK_NUM <==> |Used(d)| < DATA_BLOCKS
    ensures id >= BLOCK_NUM ==> id == BLOCK_NUM
  {
    assert forall x :: x in Used(d) ==> DATA_START <= x;
    hide Used, BitAt, LowestClear;
    LowestClearSplitsUsed(d, id);
    if id < BLOCK_NUM {
      RangeBound(Used(d) + {id}, DATA_START, BLOCK_NUM);
    } else {
      RangeSize(Used(d), DATA_START, BLOCK_NUM);
      var end: nat := BLOCK_NUM;
      assert end !in Used(d);
    }
  }

  /** On a sound disk: exactly when the files leave a data block free. */
  lemma SoundAllocIsOnDiskIff(d: Image, lastInum: nat, id: nat)
    requires Sound(d, lastInum) && LowestClear(d, id)
    ensures id < BLOCK_NUM <==> Demand(Store(d)) < DATA_BLOCKS
    ensures id >= BLOCK_NUM ==> id == BLOCK_NUM
  {
    hide Store, Sound, Demand, Used, LowestClear;
    UsedCount(d, lastInum);
    UsedIsOnDisk(d, lastInum);
    AllocIsOnDiskIff(d, id);
  }
}
