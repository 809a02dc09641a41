/** The file-system client (class yfs_client): every operation reads and rewrites whole extents. */
module ClientLayer {
  import opened Bytes
  import opened Geometry
  import opened Layout
  import opened Ownership
  import opened InodeLayer
  import opened ExtentLayer
  import opened Transfer
  import opened DirText
  import opened ByteRange
  import opened FileSystem

  datatype Status = OK | RPCERR | NOENT | IOERR | EXIST

  /** Every directory can be printed so that it reads back. */
  ghost predicate TextOk(f: Fs) {
    forall d :: IsDir(f, d) ==> ValidEntries(f.nodes[d].entries)
  }

  /** Node d with one printed entry appended. */
  function WithEntry(f: Fs, d: nat, e: Dirent): Fs
    requires d in f.nodes
  {
    f.(nodes := f.nodes[d := AppendName(f.nodes[d], e)])
  }

  lemma StoredSize(d: Image, lastInum: nat, i: nat)
    requires Sound(d, lastInum) && i in Store(d)
    ensures |Store(d)[i].data| <= MAX_SIZE
  {
    SoundInode(d, lastInum, i);
  }

  lemma TextGrows(buf: Text, e: Dirent)
    ensures buf + PrintEntry(e) == buf + e.name + [SLASH] + ShowNat(e.inum) + [SLASH]
  {
    hide ShowNat;
  }

  lemma EntryKeepsText(f: Fs, d: nat, e: Dirent)
    requires TextOk(f) && d in f.nodes && ValidEntry(e)
    ensures TextOk(WithEntry(f, d, e))
  {
    hide ValidEntry;
    forall i | IsDir(WithEntry(f, d, e), i) ensures ValidEntries(WithEntry(f, d, e).nodes[i].entries) {
      assert IsDir(f, i);
    }
  }

  lemma FreshKeepsText(f: Fs, n: Node)
    requires TextOk(f) && (n.Dir? ==> n.entries == [])
    ensures TextOk(Fs(f.nodes[f.last + 1 := n], f.last + 1))
  {
    var g := Fs(f.nodes[f.last + 1 := n], f.last + 1);
    forall i | IsDir(g, i) ensures ValidEntries(g.nodes[i].entries) {
      if i != f.last + 1 {
        assert IsDir(f, i);
      }
    }
  }

  lemma AddInTwoSteps(f: Fs, d: nat, name: Text, n: Node)
    requires d in f.nodes && f.last + 1 !in f.nodes
    ensures var mid := Fs(f.nodes[f.last + 1 := n], f.last + 1);
            d in mid.nodes && AddChild(f, d, name, n) == WithEntry(mid, d, Dirent(name, f.last + 1))
  {}

  /** Room for the longer parent is room for the shorter one. */
  lemma GrowthFits(f: Fs, d: nat, e: Dirent)
    requires d in f.nodes && Fits(WithEntry(f, d, e))
    ensures Demand(StoreOf(f.nodes)) <= DATA_BLOCKS
  {
    hide Demand, StoreOf, NodeFile, AppendName;
    AppendNameText(f.nodes[d], e);
    DemandMonotone(f.nodes, d, AppendName(f.nodes[d], e));
  }

  lemma ShrinkFits(f: Fs, d: nat, name: Text)
    requires IsDir(f, d) && TextOk(f) && Demand(StoreOf(f.nodes)) <= DATA_BLOCKS
    requires |PrintDir(f.nodes[d].entries)| <= MAX_SIZE
    ensures var es := RemoveName(f.nodes[d].entries, name);
            && |PrintDir(es)| <= MAX_SIZE
            && Demand(StoreOf(f.nodes[d := Dir(es)])) <= DATA_BLOCKS
            && TextOk(f.(nodes := f.nodes[d := Dir(es)]))
  {
    hide Demand, StoreOf, ValidEntry;
    var es := RemoveName(f.nodes[d].entries, name);
    RemovePrintsLess(f.nodes[d].entries, name);
    DemandMonotone(f.nodes[d := Dir(es)], d, f.nodes[d]);
    assert f.nodes[d := Dir(es)][d := f.nodes[d]] == f.nodes;
    var g := f.(nodes := f.nodes[d := Dir(es)]);
    forall i | IsDir(g, i) ensures ValidEntries(g.nodes[i].entries) {
      assert IsDir(f, i);
    }
  }

  /** The pieces that write glues together are the contents it should produce. */
  lemma WritePieces(c: seq<Byte>, off: nat, data: seq<Byte>, buf: seq<Byte>)
    requires var suffix := if off + |data| < |c| then c[off + |data|..] else [];
             buf == (if off > |c| then c + seq<Byte>(off - |c|, _ => 0) else c[..off]) + data + suffix
    ensures buf == WriteAt(c, off, data)
  {
    var w := WriteAt(c, off, data);
    assert |buf| == |w|;
    forall p | 0 <= p < |w| ensures buf[p] == w[p] {}
  }

  lemma EmptyRootFits()
    ensures Demand(map[1 := File(T_DIR, [])]) == 0
    ensures StoreOf(Empty().nodes) == map[1 := File(T_DIR, [])]
  {
    EmptyFilesNeedNothing(map[1 := File(T_DIR, [])], INODE_NUM);
  }

  lemma TokenShrinks(ss: Stream, line: Line, second: Line)
    requires line == GetLine(ss, []) && line.token != [] && second == GetLine(line.ss, line.token)
    ensures |second.ss.rest| < |ss.rest|
  {}

  lemma NodeFromFile(a: Node, b: Node)
    requires NodeFile(a) == NodeFile(b)
    requires (a.Dir? ==> ValidEntries(a.entries)) && (b.Dir? ==> ValidEntries(b.entries))
    ensures a == b
  {
    if a.Dir? {
      ParsePrint(a.entries);
      ParsePrint(b.entries);
    }
  }

  /** The stored form of a tree tells it apart from every other tree. */
  lemma StoredFormIsUnique(f: Fs, g: Fs)
    requires TextOk(f) && TextOk(g) && f.last == g.last && StoreOf(f.nodes) == StoreOf(g.nodes)
    ensures f == g
  {
    assert f.nodes.Keys == StoreOf(f.nodes).Keys == StoreOf(g.nodes).Keys == g.nodes.Keys;
    forall i | i in f.nodes ensures f.nodes[i] == g.nodes[i] {
      assert StoreOf(f.nodes)[i] == StoreOf(g.nodes)[i];
      assert IsDir(f, i) <==> IsDir(g, i);
      NodeFromFile(f.nodes[i], g.nodes[i]);
    }
    assert f.nodes == g.nodes;
  }

  class YfsClient {
    const ec: ExtentServer
    /** The tree that the extents stand for. */
    ghost var fs: Fs

    /** The extents are exactly the stored form of f. */
    ghost predicate Represents(f: Fs)
      reads ec.im, ec.im.bm.blocks
    {
      ec.Valid() && ec.im.lastInum == f.last && ec.Files() == StoreOf(f.nodes) && TextOk(f)
    }

    ghost predicate Valid()
      reads this, ec.im, ec.im.bm.blocks
    {
      Represents(fs)
    }

    method ClearRoot(now: U32)
      requires Represents(Empty())
      modifies ec.im.bm.blocks
      ensures Represents(Empty())
    {
      hide Sound, Store, Demand, StoreOf, DecodeInode, WriteEffect;
      EmptyRootFits();
      assert ec.Files()[1 := File(T_DIR, [])] == map[1 := File(T_DIR, [])];
      ec.Put(1, [], now);
    }

    constructor (now: U32)
      ensures Valid() && fs == Empty()
      ensures fresh(ec) && fresh(ec.im) && fresh(ec.im.bm) && fresh(ec.im.bm.blocks)
    {
      hide Sound, Store, Demand, StoreOf, DecodeInode, WriteEffect;
      ec := new ExtentServer(now);
      fs := Empty();
      new;
      EmptyRootFits();
      ClearRoot(now);
    }

    lemma NodeNumbers(f: Fs)
      requires Represents(f)
      ensures f.last < INUM_LIMIT
      ensures forall i :: i in f.nodes ==> i < INODE_NUM && i <= f.last && Masked(i) == i
      ensures forall i :: i in f.nodes ==> i in ec.Files() && ec.Files()[i] == NodeFile(f.nodes[i])
    {
      hide NodeFile, FileAt, DecodeInode, FileOk, Owned;
      forall i | i in f.nodes ensures i < INODE_NUM && i <= f.last {
        assert i in ec.Files();
      }
    }

    lemma FitsAlready(f: Fs)
      requires Represents(f)
      ensures Demand(StoreOf(f.nodes)) <= DATA_BLOCKS
      ensures forall i :: i in f.nodes ==> |NodeFile(f.nodes[i]).data| <= MAX_SIZE
    {
      hide NodeFile, DecodeInode, FileAt, Demand, Owned;
      SoundFits(ec.im.bm.Disk(), ec.im.lastInum);
      NodeNumbers(f);
      forall i | i in f.nodes ensures |NodeFile(f.nodes[i]).data| <= MAX_SIZE {
        StoredSize(ec.im.bm.Disk(), ec.im.lastInum, i);
      }
    }

    /** The ghost tree is no choice: the disk determines it. */
    lemma TreeIsDetermined(f: Fs, g: Fs)
      requires Represents(f) && Represents(g)
      ensures f == g
    {
      hide Sound, Store, StoreOf;
      StoredFormIsUnique(f, g);
    }

    /** The new bytes of id i fit in an inode and, beside the others, on the disk. */
    ghost predicate RoomFor(i: nat, buf: seq<Byte>)
      requires ec.Valid()
      reads ec.im, ec.im.bm.blocks
    {
      i in ec.Files() && |buf| <= MAX_SIZE && Demand(ec.Files()[i := File(ec.Files()[i].kind, buf)]) <= DATA_BLOCKS
    }

    lemma NodeBytes(i: nat)
      requires ec.Valid()
      ensures Valid() && IsData(fs, i) ==> i in ec.Files() && ec.Files()[i].data == Data(fs.nodes[i])
    {
      hide Sound, Store;
      if Valid() {
        NodeNumbers(fs);
      }
    }

    /** What fits in the tree fits on the disk. */
    lemma RoomInTree(i: nat, buf: seq<Byte>)
      requires Valid() && IsData(fs, i) && Fits(SetData(fs, i, buf))
      ensures Masked(i) == i && RoomFor(i, buf)
    {
      hide Sound, Store, Demand;
      NodeNumbers(fs);
      ghost var g := SetData(fs, i, buf);
      StoreUpdate(fs.nodes, i, g.nodes[i]);
      assert |NodeFile(g.nodes[i]).data| == |buf|;
    }

    lemma ResizeToSame(i: nat, size: nat)
      requires ec.Valid() && (i in ec.Files() ==> |ec.Files()[i].data| == size)
      ensures i in ec.Files() ==>
        ec.Files() == ec.Files()[i := File(ec.Files()[i].kind, Resize(ec.Files()[i].data, size))]
      ensures Valid() && IsData(fs, i) ==> fs == SetData(fs, i, Resize(Data(fs.nodes[i]), size))
    {
      hide Sound, Store;
      NodeBytes(i);
      if i in ec.Files() {
        assert Resize(ec.Files()[i].data, size) == ec.Files()[i].data;
      }
    }

    // ---------------------------------------------------------------- directories

    /** isdir, isfile and issymlink compare the attribute's type. */
    method HasKind(ino: nat, kind: U16) returns (b: bool)
      requires Valid() && kind != 0
      ensures b <==> Masked(ino) in fs.nodes && NodeFile(fs.nodes[Masked(ino)]).kind == kind
    {
      hide Sound, Store;
      var a := ec.GetAttr(ino);
      b := a.kind == kind;
    }

    /** The parsing loop of readdir. It ends on every byte string. */
    static method ParseEntries(data: Text) returns (list: seq<Dirent>)
      ensures list == ParseDir(data) && |list| <= (|data| + 2) / 3
    {
      hide AtoI, SlashIndex;
      var ss := Stream(data, true);
      list := [];
      ParseBound(ss);
      var flag := true;
      while flag
        invariant flag ==> ParseDir(data) == list + ParseFrom(ss)
        invariant !flag ==> ParseDir(data) == list
        decreases flag, |ss.rest|
      {
        var line := GetLine(ss, []);
        var name := line.token;
        if name == [] {
          break;
        }
        var second := GetLine(line.ss, name);
        TokenShrinks(ss, line, second);
        if !second.ok {
          flag := false;
        }
        var inum := ToInum(AtoI(second.token));
        list := list + [Dirent(name, inum)];
        ss := second.ss;
      }
    }

    /** The entries of a directory, in the order they were made; IOERR for anything else. */
    method ReadDir(dir: nat) returns (r: Status, list: seq<Dirent>)
      requires Valid()
      modifies ec.im.bm.blocks
      ensures Valid() && fs == old(fs)
      ensures r == OK <==> IsDir(fs, Masked(dir))
      ensures r == OK ==> list == fs.nodes[Masked(dir)].entries
      ensures r != OK ==> r == IOERR && list == []
    {
      hide Sound, Store, DecodeInode, OnlyInodeWritten;
      list := [];
      var isdir := HasKind(dir, T_DIR);
      if !isdir {
        return IOERR, list;
      }
      var now: U32 := *;
      var data := ec.Get(dir, now);
      list := ParseEntries(data);
      ParsePrint(fs.nodes[Masked(dir)].entries);
      r := OK;
    }

    /** The first entry with the name. When parent is no directory, found keeps the value the
        caller's variable had. */
    method Lookup(parent: nat, name: Text, found0: bool, ino0: nat) returns (r: Status, found: bool, inoOut: nat)
      requires Valid()
      modifies ec.im.bm.blocks
      ensures Valid() && fs == old(fs)
      ensures IsDir(fs, Masked(parent)) ==> r == OK && (found <==> HasName(fs, Masked(parent), name))
      ensures IsDir(fs, Masked(parent)) ==> inoOut == if found then Target(fs, Masked(parent), name) else ino0
      ensures !IsDir(fs, Masked(parent)) ==> r == IOERR && found == found0 && inoOut == ino0
    {
      hide Sound, Store;
      found, inoOut := found0, ino0;
      var isdir := HasKind(parent, T_DIR);
      if !isdir {
        return IOERR, found, inoOut;
      }
      found := false;
      var list;
      r, list := ReadDir(parent);
      var iter := 0;
      while iter < |list|
        invariant 0 <= iter <= |list| && !found && inoOut == ino0
        invariant forall k :: 0 <= k < iter ==> list[k].name != name
      {
        if list[iter].name == name {
          inoOut := list[iter].inum;
          found := true;
          break;
        }
        iter := iter + 1;
      }
    }

    /** Append name/ino/ to the bytes of the parent. */
    method AppendEntry(parent: nat, name: Text, ino: nat, ghost f: Fs)
      requires Represents(f) && Masked(parent) in f.nodes
      requires ValidName(name) && ino < INT_LIMIT
      requires Fits(WithEntry(f, Masked(parent), Dirent(name, ino)))
      modifies ec.im.bm.blocks
      ensures Represents(WithEntry(f, Masked(parent), Dirent(name, ino)))
    {
      hide Sound, Store, Demand, DecodeInode, WriteEffect, OnlyInodeWritten, NodeFile, AppendName;
      ghost var e := Dirent(name, ino);
      ghost var p := Masked(parent);
      ghost var g := WithEntry(f, p, e);
      NodeNumbers(f);
      var now: U32, later: U32 := *, *;
      var buf := ec.Get(parent, now);
      var ss := buf + name + [SLASH] + ShowNat(ino) + [SLASH];
      TextGrows(buf, e);
      AppendNameText(f.nodes[p], e);
      StoreUpdate(f.nodes, p, g.nodes[p]);
      assert |NodeFile(g.nodes[p]).data| == |ss|;
      ec.Put(parent, ss, later);
      EntryKeepsText(f, p, e);
    }

    // ---------------------------------------------------------------- making nodes

    /** The common text of create and mkdir, which differ in the type only. When parent is no
        directory, lookup leaves exist unset: either branch may be taken. */
    method CreateNode(parent: nat, name: Text, kind: U16, ghost n: Node) returns (r: Status, inoOut: nat)
      requires Valid() && Masked(parent) in fs.nodes && ValidName(name)
      requires NodeFile(n) == File(kind, []) && kind != 0 && (n.Dir? ==> n.entries == [])
      requires !HasName(fs, Masked(parent), name) ==> Fits(AddChild(fs, Masked(parent), name, n))
      modifies this, ec.im, ec.im.bm.blocks
      ensures Valid()
      ensures r == OK || r == EXIST
      ensures old(IsDir(fs, Masked(parent))) ==> (r == EXIST <==> old(HasName(fs, Masked(parent), name)))
      ensures r == EXIST ==> fs == old(fs)
      ensures r == EXIST && IsDir(fs, Masked(parent)) ==> inoOut == Target(fs, Masked(parent), name)
      ensures r == OK ==> fs == AddChild(old(fs), Masked(parent), name, n) && inoOut == fs.last
    {
      hide Sound, Store, Demand, DecodeInode, NodeFile, AppendName;
      NodeNumbers(fs);
      ghost var p := Masked(parent);
      var exist: bool := *;  // not initialised by the caller of lookup
      r, exist, inoOut := Lookup(parent, name, exist, 0);
      if exist {
        return EXIST, inoOut;
      }
      ghost var f := fs;
      ghost var i := f.last + 1;
      ghost var mid := Fs(f.nodes[i := n], i);
      var now: U32 := *;
      inoOut := ec.Create(kind, now);
      StoreUpdate(f.nodes, i, n);
      FreshKeepsText(f, n);
      AddInTwoSteps(f, p, name, n);
      AppendEntry(parent, name, inoOut, mid);
      fs := AddChild(f, p, name, n);
      r := OK;
    }

    /** create: in a directory, EXIST exactly when the name is bound, and then nothing changes;
        otherwise a new empty file under a fresh number, named in the parent. */
    method Create(parent: nat, name: Text) returns (r: Status, inoOut: nat)
      requires Valid() && Masked(parent) in fs.nodes && ValidName(name)
      requires !HasName(fs, Masked(parent), name) ==> Fits(AddChild(fs, Masked(parent), name, Reg([])))
      modifies this, ec.im, ec.im.bm.blocks
      ensures Valid()
      ensures r == OK || r == EXIST
      ensures old(IsDir(fs, Masked(parent))) ==> (r == EXIST <==> old(HasName(fs, Masked(parent), name)))
      ensures r == EXIST ==> fs == old(fs)
      ensures r == EXIST && IsDir(fs, Masked(parent)) ==> inoOut == Target(fs, Masked(parent), name)
      ensures r == OK ==> fs == AddChild(old(fs), Masked(parent), name, Reg([])) && inoOut == fs.last
    {
      r, inoOut := CreateNode(parent, name, T_FILE, Reg([]));
    }

    /** mkdir: the same with a directory. */
    method Mkdir(parent: nat, name: Text) returns (r: Status, inoOut: nat)
      requires Valid() && Masked(parent) in fs.nodes && ValidName(name)
      requires !HasName(fs, Masked(parent), name) ==> Fits(AddChild(fs, Masked(parent), name, Dir([])))
      modifies this, ec.im, ec.im.bm.blocks
      ensures Valid()
      ensures r == OK || r == EXIST
      ensures old(IsDir(fs, Masked(parent))) ==> (r == EXIST <==> old(HasName(fs, Masked(parent), name)))
      ensures r == EXIST ==> fs == old(fs)
      ensures r == EXIST && IsDir(fs, Masked(parent)) ==> inoOut == Target(fs, Masked(parent), name)
      ensures r == OK ==> fs == AddChild(old(fs), Masked(parent), name, Dir([])) && inoOut == fs.last
    {
      r, inoOut := CreateNode(parent, name, T_DIR, Dir([]));
    }

    /** symlink does not look the name up first: it always adds, whatever the parent is. */
    method Symlink(parent: nat, link: seq<Byte>, name: Text) returns (r: Status, inoOut: nat)
      requires Valid() && Masked(parent) in fs.nodes && ValidName(name)
      requires |link| <= MAX_SIZE && Fits(AddChild(fs, Masked(parent), name, Link(link)))
      modifies this, ec.im, ec.im.bm.blocks
      ensures Valid() && r == OK
      ensures fs == AddChild(old(fs), Masked(parent), name, Link(link)) && inoOut == fs.last
    {
      hide Sound, Store, Demand, DecodeInode, WriteEffect, OnlyInodeWritten, AppendName;
      NodeNumbers(fs);
      ghost var p := Masked(parent);
      ghost var f := fs;
      ghost var i := f.last + 1;
      ghost var mid := Fs(f.nodes[i := Link(link)], i);
      var now: U32, later: U32, last: U32 := *, *, *;
      AddInTwoSteps(f, p, name, Link(link));
      inoOut := ec.Create(T_SYMLINK, now);
      StoreUpdate(f.nodes, i, Link(link));
      assert ec.Files()[i := File(T_SYMLINK, link)] == StoreOf(mid.nodes);
      assert Masked(inoOut) == inoOut;
      GrowthFits(mid, p, Dirent(name, i));
      ec.Put(inoOut, link, later);
      var buf1 := ec.Get(inoOut, last);
      FreshKeepsText(f, Link(link));
      AppendEntry(parent, name, inoOut, mid);
      fs := AddChild(f, p, name, Link(link));
      r := OK;
    }

    // ---------------------------------------------------------------- removing

    static method EraseName(entries: seq<Dirent>, name: Text) returns (list: seq<Dirent>)
      ensures list == RemoveName(entries, name)
    {
      list := entries;
      var iter := 0;
      while iter < |list|
        invariant 0 <= iter <= |list| && list == entries
        invariant forall k :: 0 <= k < iter ==> list[k].name != name
      {
        if list[iter].name == name {
          list := list[..iter] + list[iter + 1..];
          break;
        }
        iter := iter + 1;
      }
    }

    static method PrintList(list: seq<Dirent>) returns (ss: Text)
      ensures ss == PrintDir(list)
    {
      hide ShowNat;
      ss := [];
      var iter := 0;
      assert list[..0] == [];
      while iter < |list|
        invariant 0 <= iter <= |list| && ss == PrintDir(list[..iter])
      {
        PrintAppend(list[..iter], list[iter]);
        assert list[..iter + 1] == list[..iter] + [list[iter]];
        ss := ss + (list[iter].name + [SLASH] + ShowNat(list[iter].inum) + [SLASH]);
        iter := iter + 1;
      }
      assert list[..iter] == list;
    }

    /** The second half of unlink: read the directory again, erase the entry, print the rest. */
    method RewriteWithout(parent: nat, name: Text)
      requires Valid() && IsDir(fs, Masked(parent)) && Demand(StoreOf(fs.nodes)) <= DATA_BLOCKS
      modifies this, ec.im.bm.blocks
      ensures Valid()
      ensures var p := Masked(parent);
              fs == old(fs).(nodes := old(fs).nodes[p := Dir(RemoveName(old(fs).nodes[p].entries, name))])
    {
      hide Sound, Store, Demand, DecodeInode, WriteEffect;
      NodeNumbers(fs);
      FitsAlready(fs);
      ghost var f := fs;
      ghost var p := Masked(parent);
      var r, list := ReadDir(parent);
      list := EraseName(list, name);
      var ss := PrintList(list);
      ShrinkFits(f, p, name);
      StoreUpdate(f.nodes, p, Dir(list));
      NodeNumbers(f);
      var now: U32 := *;
      ec.Put(parent, ss, now);
      fs := f.(nodes := f.nodes[p := Dir(list)]);
    }

    /** unlink: NOENT exactly when the name is not bound; otherwise the node and its binding go. */
    method Unlink(parent: nat, name: Text) returns (r: Status)
      requires Valid() && IsDir(fs, Masked(parent))
      requires HasName(fs, Masked(parent), name) ==>
        Target(fs, Masked(parent), name) in fs.nodes && Target(fs, Masked(parent), name) != Masked(parent)
      modifies this, ec.im.bm.blocks
      ensures Valid()
      ensures r == if old(HasName(fs, Masked(parent), name)) then OK else NOENT
      ensures r == NOENT ==> fs == old(fs)
      ensures r == OK ==> fs == RemoveChild(old(fs), Masked(parent), name)
    {
      hide Sound, Store, Demand, DecodeInode, WriteEffect, RemoveEffect, NodeFile;
      NodeNumbers(fs);
      var exist: bool := *;  // not initialised by the caller of lookup
      var inoOut;
      r, exist, inoOut := Lookup(parent, name, exist, 0);
      if !exist {
        return NOENT;
      }
      ghost var f := fs;
      FitsAlready(f);
      ec.Remove(inoOut);
      StoreRemove(f.nodes, inoOut);
      DemandRemove(f.nodes, inoOut);
      fs := fs.(nodes := fs.nodes - {inoOut});
      RewriteWithout(parent, name);
      assert fs == RemoveChild(f, Masked(parent), name);
    }

    // ---------------------------------------------------------------- contents

    /** read: the bytes of a range, cut at the end of the file; IOERR for anything but a file. */
    method Read(ino: nat, size: nat, off: nat) returns (r: Status, data: seq<Byte>)
      requires Valid()
      requires Masked(ino) in fs.nodes && fs.nodes[Masked(ino)].Reg? ==> off <= |fs.nodes[Masked(ino)].data|
      modifies ec.im.bm.blocks
      ensures Valid() && fs == old(fs)
      ensures r == OK <==> Masked(ino) in fs.nodes && fs.nodes[Masked(ino)].Reg?
      ensures r == OK ==> data == ReadAt(fs.nodes[Masked(ino)].data, off, size)
      ensures r != OK ==> r == IOERR && data == []
    {
      hide Sound, Store, DecodeInode, OnlyInodeWritten;
      var isfile := HasKind(ino, T_FILE);
      if !isfile {
        return IOERR, [];
      }
      var now: U32 := *;
      var buf := ec.Get(ino, now);
      data := if off + size <= |buf| then buf[off..off + size] else buf[off..];
      r := OK;
    }

    /** readlink: the target of a symbolic link, IOERR for anything else. */
    method ReadLink(sym: nat) returns (r: Status, data: seq<Byte>)
      requires Valid()
      modifies ec.im.bm.blocks
      ensures Valid() && fs == old(fs)
      ensures r == OK <==> Masked(sym) in fs.nodes && fs.nodes[Masked(sym)].Link?
      ensures r == OK ==> data == fs.nodes[Masked(sym)].target
      ensures r != OK ==> r == IOERR && data == []
    {
      hide Sound, Store, DecodeInode, OnlyInodeWritten;
      var issymlink := HasKind(sym, T_SYMLINK);
      if !issymlink {
        return IOERR, [];
      }
      var now: U32 := *;
      data := ec.Get(sym, now);
      r := OK;
    }

    /** The stored bytes of any live id, whatever its type, replaced. */
    method PutBytes(ino: nat, buf: seq<Byte>)
      requires ec.Valid() && RoomFor(Masked(ino), buf)
      modifies this, ec.im.bm.blocks
      ensures ec.Valid() && ec.Files() == old(ec.Files())[Masked(ino) := File(old(ec.Files())[Masked(ino)].kind, buf)]
      ensures old(Valid() && IsData(fs, Masked(ino))) ==> Valid() && fs == SetData(old(fs), Masked(ino), buf)
    {
      hide Sound, Store, Demand, DecodeInode, WriteEffect;
      var now: U32 := *;
      ghost var i := Masked(ino);
      ghost var stands := Valid() && IsData(fs, i);
      if stands {
        NodeNumbers(fs);
        StoreUpdate(fs.nodes, i, WithData(fs.nodes[i], buf));
      }
      ec.Put(ino, buf, now);
      if stands {
        ghost var g := SetData(fs, i, buf);
        assert forall d :: IsDir(g, d) ==> IsDir(fs, d) && g.nodes[d] == fs.nodes[d];
        fs := g;
      }
    }

    /** write: the new contents keep every byte outside the range, with zeros in a hole. The
        count returned includes the hole. The type is not looked at: the bytes of a directory are
        overwritten like any others. */
    method Write(ino: nat, off: nat, data: seq<Byte>) returns (bytesWritten: nat)
      requires ec.Valid() && Masked(ino) in ec.Files()
      requires RoomFor(Masked(ino), WriteAt(ec.Files()[Masked(ino)].data, off, data))
      modifies this, ec.im.bm.blocks
      ensures ec.Valid()
      ensures var before := old(ec.Files())[Masked(ino)];
              && ec.Files() == old(ec.Files())[Masked(ino) := File(before.kind, WriteAt(before.data, off, data))]
              && bytesWritten == (if off > |before.data| then off - |before.data| + |data| else |data|)
              && (bytesWritten == |data| <==> off <= |before.data|)
      ensures old(Valid() && IsData(fs, Masked(ino))) ==>
        Valid() && fs == SetData(old(fs), Masked(ino), WriteAt(Data(old(fs).nodes[Masked(ino)]), off, data))
    {
      hide Sound, Store, Demand, DecodeInode, OnlyInodeWritten;
      ghost var before := ec.Files()[Masked(ino)].data;
      NodeBytes(Masked(ino));
      var now: U32 := *;
      var buf := ec.Get(ino, now);
      var suffix := [];
      if off + |data| < |buf| {
        suffix := buf[off + |data|..];
      }
      if off > |buf| {
        bytesWritten := off - |buf| + |data|;
        buf := buf + seq(off - |buf|, _ => 0);
      } else {
        bytesWritten := |data|;
        buf := buf[..off];
      }
      buf := buf + data;
      buf := buf + suffix;
      WritePieces(before, off, data, buf);
      PutBytes(ino, buf);
    }

    /** setattr: cut, or extended with zeros, whatever the type. A dead id has size 0, and can be
        given no other. */
    method SetAttr(ino: nat, size: nat)
      requires ec.Valid() && (Masked(ino) in ec.Files() || size == 0)
      requires Masked(ino) in ec.Files() ==> RoomFor(Masked(ino), Resize(ec.Files()[Masked(ino)].data, size))
      modifies this, ec.im.bm.blocks
      ensures ec.Valid()
      ensures Masked(ino) in old(ec.Files()) ==>
        var before := old(ec.Files())[Masked(ino)];
        ec.Files() == old(ec.Files())[Masked(ino) := File(before.kind, Resize(before.data, size))]
      ensures Masked(ino) !in old(ec.Files()) ==> ec.Files() == old(ec.Files()) && fs == old(fs)
      ensures old(Valid() && IsData(fs, Masked(ino))) ==>
        Valid() && fs == SetData(old(fs), Masked(ino), Resize(Data(old(fs).nodes[Masked(ino)]), size))
    {
      hide Sound, Store, Demand, DecodeInode, OnlyInodeWritten;
      NodeBytes(Masked(ino));
      var a := ec.GetAttr(ino);
      if a.size == size {
        ResizeToSame(Masked(ino), size);
        return;
      }
      ghost var before := ec.Files()[Masked(ino)].data;
      var now: U32 := *;
      var buf := ec.Get(ino, now);
      if a.size < size {
        buf := buf + seq(size - a.size, _ => 0);
      } else {
        buf := buf[..size];
      }
      assert buf == Resize(before, size);
      PutBytes(ino, buf);
    }
  }
}
