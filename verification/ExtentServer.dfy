/** The extent server: inode numbers behind 64-bit ids, contents as strings. */
module ExtentLayer {
  import opened Bytes
  import opened Geometry
  import opened Layout
  import opened Ownership
  import opened Transfer
  import opened InodeLayer

  datatype Attr = Attr(kind: U16, atime: U32, mtime: U32, ctime: U32, size: U32)

  const NO_ATTR: Attr := Attr(0, 0, 0, 0, 0)

  function AttrOf(ino: DiskInode): Attr {
    Attr(ino.kind, ino.atime, ino.mtime, ino.ctime, ino.size)
  }

  /** id & 0x7fffffff */
  function Masked(id: nat): nat {
    id % 0x8000_0000
  }

  /** The low 31 bits stay. */
  lemma MaskedKeepsLowBits(id: nat)
    ensures Masked(id) < 2147483648 && (id - Masked(id)) % 2147483648 == 0
    ensures id < 2147483648 ==> Masked(id) == id
  {}

  class ExtentServer {
    const im: InodeManager

    ghost predicate Valid()
      reads im, im.bm.blocks
    {
      im.Valid()
    }

    ghost function Files(): map<nat, File>
      requires Valid()
      reads im, im.bm.blocks
    {
      im.Files()
    }

    constructor (now: U32)
      ensures Valid() && fresh(im) && fresh(im.bm) && fresh(im.bm.blocks)
      ensures im.lastInum == 1 && Files() == map[1 := File(T_DIR, [])]
    {
      im := new InodeManager(now);
    }

    /** A new empty extent under an id that was never used before; no extent, but the id all the
        same, past the inode table or for type 0. */
    method Create(kind: U16, now: U32) returns (id: nat)
      requires Valid() && im.lastInum + 1 < INUM_LIMIT
      modifies im, im.bm.blocks
      ensures Valid() && id == old(im.lastInum) + 1 == im.lastInum && id !in old(Files())
      ensures Files() == if id < INODE_NUM && kind != 0 then old(Files())[id := File(kind, [])] else old(Files())
      ensures id < INODE_NUM ==>
                InodeAt(im.bm.Disk(), id) == Inode(kind, 0, now, now, now, InodeAt(im.bm.Disk(), id).blocks)
      ensures OnlyBlockWritten(old(im.bm.Disk()), im.bm.Disk(), IBlock(id))
    {
      id := im.AllocInode(kind, now);
    }

    method Put(id: nat, buf: seq<Byte>, now: U32)
      requires Valid() && Masked(id) in Files() && |buf| <= MAX_SIZE
      requires Demand(Files()[Masked(id) := File(Files()[Masked(id)].kind, buf)]) <= DATA_BLOCKS
      modifies im.bm.blocks
      ensures Valid()
      ensures Files() == old(Files())[Masked(id) := File(old(Files())[Masked(id)].kind, buf)]
      ensures WriteEffect(old(im.bm.Disk()), im.bm.Disk(), Masked(id), |buf|, now)
    {
      hide Sound, Store, Demand, WriteEffect;
      im.WriteFile(Masked(id), buf, now);
    }

    /** The bytes last put. */
    method Get(id: nat, now: U32) returns (buf: seq<Byte>)
      requires Valid() && Masked(id) in Files()
      modifies im.bm.blocks
      ensures Valid() && Files() == old(Files()) && buf == Files()[Masked(id)].data
      ensures OnlyInodeWritten(old(im.bm.Disk()), im.bm.Disk(), Masked(id))
      ensures InodeAt(im.bm.Disk(), Masked(id)) == old(InodeAt(im.bm.Disk(), Masked(id))).(atime := now)
    {
      hide Sound, Store, DecodeInode;
      var cbuf, size := im.ReadFile(Masked(id), now);
      if size == 0 {
        buf := [];
      } else {
        buf := cbuf[..size];
      }
    }

    /** Kind and size of a live extent; all zero for an id that is dead or out of range. */
    method GetAttr(id: nat) returns (a: Attr)
      requires Valid()
      ensures Masked(id) in Files() ==>
        a.kind == Files()[Masked(id)].kind && a.kind != 0 && a.size == |Files()[Masked(id)].data|
      ensures Masked(id) in Files() ==> Masked(id) < INODE_NUM && a == AttrOf(InodeAt(im.bm.Disk(), Masked(id)))
      ensures Masked(id) !in Files() ==> a == NO_ATTR
    {
      hide Sound, DecodeInode;
      a := NO_ATTR;
      var ino := im.GetAttr(Masked(id));
      if ino.Some? {
        a := AttrOf(ino.value);
      }
    }

    method Remove(id: nat)
      requires Valid() && Masked(id) in Files()
      modifies im.bm.blocks
      ensures Valid() && Files() == old(Files()) - {Masked(id)}
      ensures RemoveEffect(old(im.bm.Disk()), im.bm.Disk(), Masked(id))
    {
      hide Sound, Store, RemoveEffect;
      im.RemoveFile(Masked(id));
    }
  }
}
