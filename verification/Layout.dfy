/** How inodes, indirect blocks and file data are laid out in a disk image, which blocks each
    inode owns, and the plain map from inode numbers to files that the image stands for. */
module Layout {
  import opened Bytes
  import opened Geometry
  import opened Bitmap

  const MAX_SIZE: nat := MAXFILE * BLOCK_SIZE
  /** sizeof(struct inode): five header words and the block addresses. */
  const INODE_WORDS: nat := 5 + NDIRECT + 1
  const INODE_BYTES: nat := 4 * INODE_WORDS

  datatype RawInode = Inode(kind: U16, size: U32, atime: U32, mtime: U32, ctime: U32, blocks: seq<U32>)

  type DiskInode = ino: RawInode | |ino.blocks| == NDIRECT + 1
    witness Inode(0, 0, 0, 0, 0, seq<U32>(NDIRECT + 1, _ => 0))

  /** A file as the clients of the inode layer see it. */
  datatype File = File(kind: U16, data: seq<Byte>)

  // ---------------------------------------------------------------- inodes as bytes

  /** struct inode as machine words; pad is the two bytes the compiler leaves after the type. */
  function InodeWords(ino: DiskInode, pad: U16): seq<U32> {
    [(ino.kind as int) + 0x1_0000 * (pad as int), ino.size, ino.atime, ino.mtime, ino.ctime] + ino.blocks
  }

  /** Assigning a struct inode over the front of a block. */
  function EncodeInode(ino: DiskInode, pad: U16, before: Block): Block {
    WordsToBytes(InodeWords(ino, pad)) + before[INODE_BYTES..]
  }

  function DecodeInode(b: Block): DiskInode {
    var w := BytesToWords(b);
    Inode(w[0] % 0x1_0000, w[1], w[2], w[3], w[4], w[5..INODE_WORDS])
  }

  lemma InodeRoundTrip(ino: DiskInode, pad: U16, before: Block)
    ensures DecodeInode(EncodeInode(ino, pad, before)) == ino
  {
    hide WordsToBytes, BytesToWords;
    var ws := InodeWords(ino, pad);
    WordsRoundTrip(ws, before[INODE_BYTES..]);
    var w := BytesToWords(EncodeInode(ino, pad, before));
    assert w[..INODE_WORDS] == ws;
    assert w[5..INODE_WORDS] == w[..INODE_WORDS][5..];
  }

  /** The place of every field of struct inode in its block: a 16-bit type, two bytes of padding,
      then size, the three times and the block addresses as 32-bit words. */
  lemma InodeFieldPlaces(b: Block)
    ensures var ino := DecodeInode(b);
            && ino.kind == b[0] as int + 256 * (b[1] as int)
            && ino.size == WordAt(b, 4) && ino.atime == WordAt(b, 8)
            && ino.mtime == WordAt(b, 12) && ino.ctime == WordAt(b, 16)
            && forall k :: 0 <= k <= 100 ==> ino.blocks[k] == WordAt(b, 20 + 4 * k)
  {
    var w := BytesToWords(b);
    assert w[0] == WordAt(b, 0);
  }

  lemma EncodeKeepsTail(ino: DiskInode, pad: U16, before: Block)
    ensures EncodeInode(ino, pad, before)[INODE_BYTES..] == before[INODE_BYTES..]
  {
    hide WordsToBytes;
  }

  lemma IndirectRoundTrip(ws: seq<U32>)
    requires |ws| == NINDIRECT
    ensures |WordsToBytes(ws)| == BLOCK_SIZE
    ensures BytesToWords(WordsToBytes(ws)) == ws
  {
    hide WordsToBytes, BytesToWords;
    WordsRoundTrip(ws, []);
    assert WordsToBytes(ws) + [] == WordsToBytes(ws);
  }

  // ---------------------------------------------------------------- ownership

  function NumBlocks(size: nat): nat {
    (size + BLOCK_SIZE - 1) / BLOCK_SIZE
  }

  /** Blocks taken by a file of the given size: its data, and an indirect block past 100. */
  function OwnedCount(size: nat): nat {
    NumBlocks(size) + if NumBlocks(size) > NDIRECT then 1 else 0
  }

  /** One block for every 512 bytes begun, and one more for the pointers from the 101st on. */
  lemma OwnedCountIs(size: nat)
    ensures size == 0 ==> OwnedCount(size) == 0
    ensures 0 < size <= 51200 ==> 512 * (OwnedCount(size) - 1) < size <= 512 * OwnedCount(size)
    ensures size > 51200 ==> 512 * (OwnedCount(size) - 2) < size <= 512 * (OwnedCount(size) - 1)
    ensures MAX_SIZE == 116736 && OwnedCount(MAX_SIZE) == 229
  {}

  /** The pointers in an inode's indirect block; none when there is no such block. */
  function IndirectWords(d: Image, ino: DiskInode): seq<U32> {
    var n := NumBlocks(ino.size);
    if NDIRECT < n <= MAXFILE && ino.blocks[NDIRECT] < BLOCK_NUM
    then BytesToWords(d[ino.blocks[NDIRECT]])[..n - NDIRECT]
    else []
  }

  /** The blocks that hold file data, in file order. */
  function DataBlocks(d: Image, ino: DiskInode): seq<U32> {
    var n := NumBlocks(ino.size);
    if n <= NDIRECT then ino.blocks[..n] else ino.blocks[..NDIRECT] + IndirectWords(d, ino)
  }

  /** Every block the inode owns: data blocks and the indirect block. */
  function Owned(d: Image, ino: DiskInode): seq<U32> {
    var n := NumBlocks(ino.size);
    if n <= NDIRECT then ino.blocks[..n] else ino.blocks[..NDIRECT + 1] + IndirectWords(d, ino)
  }

  /** Byte k of a file whose data lies in the given blocks. */
  function Fetch(d: Image, ids: seq<U32>, k: nat): Byte {
    if k / BLOCK_SIZE < |ids| && ids[k / BLOCK_SIZE] < BLOCK_NUM
    then d[ids[k / BLOCK_SIZE]][k % BLOCK_SIZE]
    else 0
  }

  function Gather(d: Image, ids: seq<U32>, size: nat): seq<Byte> {
    seq(size, k requires 0 <= k < size => Fetch(d, ids, k))
  }

  function InodeAt(d: Image, i: nat): DiskInode
    requires i < INODE_NUM
  {
    DecodeInode(d[IBlock(i)])
  }

  predicate Live(d: Image, i: nat)
    requires i < INODE_NUM
  {
    InodeAt(d, i).kind != 0
  }

  /** The blocks inode number i owns; a dead inode owns none. */
  function OwnedBy(d: Image, i: nat): seq<U32>
    requires i < INODE_NUM
  {
    if Live(d, i) then Owned(d, InodeAt(d, i)) else []
  }

  function FileAt(d: Image, i: nat): File
    requires i < INODE_NUM
  {
    var ino := InodeAt(d, i);
    File(ino.kind, Gather(d, DataBlocks(d, ino), ino.size))
  }

  /** The map from inode numbers to files that the disk stands for. */
  function Store(d: Image): map<nat, File> {
    map i: nat | i < INODE_NUM && Live(d, i) :: FileAt(d, i)
  }

  // ---------------------------------------------------------------- the invariant

  ghost predicate NoDup(s: seq<U32>) {
    forall a, b :: 0 <= a < b < |s| ==> s[a] != s[b]
  }

  ghost predicate InData(s: seq<U32>) {
    forall a :: 0 <= a < |s| ==> DATA_START <= s[a] < BLOCK_NUM
  }

  ghost predicate Disjoint(s: seq<U32>, t: seq<U32>) {
    forall a :: 0 <= a < |s| ==> s[a] !in t
  }

  ghost function Elems(s: seq<U32>): set<nat> {
    set x: nat | x in s
  }

  ghost predicate FileOk(d: Image, ino: DiskInode) {
    && ino.size <= MAX_SIZE
    && |Owned(d, ino)| == OwnedCount(ino.size)
    && NoDup(Owned(d, ino))
    && InData(Owned(d, ino))
  }

  ghost function OwnedBelow(d: Image, n: nat): set<nat>
    requires n <= INODE_NUM
  {
    set i: nat, x: nat | i < n && x in OwnedBy(d, i) :: x
  }

  /** Live inodes are sound and were handed out; no block is owned twice; and the bitmap
      marks exactly the blocks that live inodes own. */
  ghost predicate Sound(d: Image, lastInum: nat) {
    && lastInum < INUM_LIMIT
    && (forall i: nat :: i < INODE_NUM && Live(d, i) ==> 1 <= i <= lastInum && FileOk(d, InodeAt(d, i)))
    && (forall i: nat, j: nat :: i < INODE_NUM && j < INODE_NUM && i != j ==> Disjoint(OwnedBy(d, i), OwnedBy(d, j)))
    && Used(d) == OwnedBelow(d, INODE_NUM)
  }

  predicate IsBitmapBlock(b: nat) {
    BBlock(0) <= b <= BBlock(BLOCK_NUM - 1)
  }

  /** Nothing changed but the bitmap and the listed blocks. */
  ghost predicate SameOutside(d: Image, e: Image, ids: seq<U32>) {
    forall b: nat :: b < BLOCK_NUM && !IsBitmapBlock(b) && b !in ids ==> e[b] == d[b]
  }
}
