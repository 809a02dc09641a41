/** Whole runs: any sequence of client operations, answered through text, inodes, indirect blocks
    and bitmap, agrees with the plain tree; and what every such run keeps. */
module Runs {
  import opened Bytes
  import opened Bitmap
  import opened Layout
  import opened Ownership
  import opened ExtentLayer
  import opened DirText
  import opened ByteRange
  import opened FileSystem
  import opened ClientLayer

  datatype Op =
    | OpCreate(parent: nat, name: Text)
    | OpMkdir(parent: nat, name: Text)
    | OpSymlink(parent: nat, link: seq<Byte>, name: Text)
    | OpUnlink(parent: nat, name: Text)
    | OpLookup(parent: nat, name: Text)
    | OpReadDir(dir: nat)
    | OpRead(ino: nat, size: nat, off: nat)
    | OpReadLink(sym: nat)
    | OpWrite(ino: nat, off: nat, data: seq<Byte>)
    | OpSetAttr(ino: nat, size: nat)

  datatype Reply =
    | Number(status: Status, ino: nat)
    | Entries(status: Status, list: seq<Dirent>)
    | Content(status: Status, data: seq<Byte>)
    | Count(status: Status, n: nat)
    | Plain(status: Status)

  // ---------------------------------------------------------------- the tree on its own

  predicate IsReg(fs: Fs, i: nat) {
    i in fs.nodes && fs.nodes[i].Reg?
  }

  predicate IsLink(fs: Fs, i: nat) {
    i in fs.nodes && fs.nodes[i].Link?
  }

  /** A node can be added: its parent is a directory, its name can be printed, and, unless the
      name is taken, everything still fits. */
  predicate MayAdd(fs: Fs, d: nat, name: Text, n: Node) {
    IsDir(fs, d) && ValidName(name) && (!HasName(fs, d, name) ==> Fits(AddChild(fs, d, name, n)))
  }

  /** What the code asks of its callers: parents are directories, names are nonempty and free of
      slashes, symlink gets a free name, unlink no directory with entries, reads start inside the
      file, data operations get no directory, and the result fits on the disk. Ids are 64-bit and
      masked. */
  predicate Allowed(fs: Fs, op: Op) {
    match op
    case OpCreate(p, name) => MayAdd(fs, Masked(p), name, Reg([]))
    case OpMkdir(p, name) => MayAdd(fs, Masked(p), name, Dir([]))
    case OpSymlink(p, link, name) => MayAdd(fs, Masked(p), name, Link(link)) && !HasName(fs, Masked(p), name)
    case OpUnlink(p, name) =>
      && IsDir(fs, Masked(p))
      && (HasName(fs, Masked(p), name) ==> !NonemptyDir(fs, Target(fs, Masked(p), name)))
    case OpLookup(p, name) => IsDir(fs, Masked(p))
    case OpReadDir(d) => true
    case OpRead(i, size, off) => IsReg(fs, Masked(i)) ==> off <= |fs.nodes[Masked(i)].data|
    case OpReadLink(i) => true
    case OpWrite(i, off, data) =>
      IsData(fs, Masked(i)) && Fits(SetData(fs, Masked(i), WriteAt(Data(fs.nodes[Masked(i)]), off, data)))
    case OpSetAttr(i, size) =>
      IsData(fs, Masked(i)) && Fits(SetData(fs, Masked(i), Resize(Data(fs.nodes[Masked(i)]), size)))
  }

  function AddIfFree(fs: Fs, d: nat, name: Text, n: Node): Fs
    requires IsDir(fs, d)
  {
    if HasName(fs, d, name) then fs else AddChild(fs, d, name, n)
  }

  /** The tree after an operation. */
  ghost function After(fs: Fs, op: Op): Fs
    requires Allowed(fs, op) && TreeOk(fs)
  {
    match op
    case OpCreate(p, name) => AddIfFree(fs, Masked(p), name, Reg([]))
    case OpMkdir(p, name) => AddIfFree(fs, Masked(p), name, Dir([]))
    case OpSymlink(p, link, name) => AddChild(fs, Masked(p), name, Link(link))
    case OpUnlink(p, name) =>
      if HasName(fs, Masked(p), name) then
        TargetIsChild(fs, Masked(p), name);
        RemoveChild(fs, Masked(p), name)
      else fs
    case OpWrite(i, off, data) => SetData(fs, Masked(i), WriteAt(Data(fs.nodes[Masked(i)]), off, data))
    case OpSetAttr(i, size) => SetData(fs, Masked(i), Resize(Data(fs.nodes[Masked(i)]), size))
    case _ => fs
  }

  function AddAnswer(fs: Fs, d: nat, name: Text): Reply {
    if HasName(fs, d, name) then Number(EXIST, Target(fs, d, name)) else Number(OK, fs.last + 1)
  }

  /** The answer to an operation. */
  function Answer(fs: Fs, op: Op): Reply
    requires Allowed(fs, op)
  {
    match op
    case OpCreate(p, name) => AddAnswer(fs, Masked(p), name)
    case OpMkdir(p, name) => AddAnswer(fs, Masked(p), name)
    case OpSymlink(p, link, name) => Number(OK, fs.last + 1)
    case OpUnlink(p, name) => Plain(if HasName(fs, Masked(p), name) then OK else NOENT)
    case OpLookup(p, name) =>
      Number(OK, if HasName(fs, Masked(p), name) then Target(fs, Masked(p), name) else 0)
    case OpReadDir(d) =>
      if IsDir(fs, Masked(d)) then Entries(OK, fs.nodes[Masked(d)].entries) else Entries(IOERR, [])
    case OpRead(i, size, off) =>
      if IsReg(fs, Masked(i)) then Content(OK, ReadAt(fs.nodes[Masked(i)].data, off, size)) else Content(IOERR, [])
    case OpReadLink(i) =>
      if IsLink(fs, Masked(i)) then Content(OK, fs.nodes[Masked(i)].target) else Content(IOERR, [])
    case OpWrite(i, off, data) =>
      var before := |Data(fs.nodes[Masked(i)])|;
      Count(OK, if off > before then off - before + |data| else |data|)
    case OpSetAttr(i, size) => Plain(OK)
  }

  lemma FitsNumber(fs: Fs, p: nat, name: Text, n: Node)
    requires IsDir(fs, p) && Fits(AddChild(fs, p, name, n))
    ensures fs.last + 1 < INT_LIMIT
  {}

  lemma AddIfFreeIsTree(fs: Fs, d: nat, name: Text, n: Node)
    requires TreeOk(fs) && MayAdd(fs, d, name, n) && (n.Dir? ==> n.entries == [])
    ensures TreeOk(AddIfFree(fs, d, name, n))
  {
    hide TreeOk, Fits;
    if !HasName(fs, d, name) {
      FitsNumber(fs, d, name, n);
      AddKeepsTree(fs, d, name, n);
    }
  }

  /** Every operation that is allowed keeps the tree a tree. */
  lemma AfterIsTree(fs: Fs, op: Op)
    requires Allowed(fs, op) && TreeOk(fs)
    ensures TreeOk(After(fs, op))
    ensures fs.last <= After(fs, op).last
  {
    hide TreeOk, Fits;
    match op
    case OpCreate(p, name) => AddIfFreeIsTree(fs, Masked(p), name, Reg([]));
    case OpMkdir(p, name) => AddIfFreeIsTree(fs, Masked(p), name, Dir([]));
    case OpSymlink(p, link, name) => AddIfFreeIsTree(fs, Masked(p), name, Link(link));
    case OpUnlink(p, name) =>
      if HasName(fs, Masked(p), name) {
        RemoveKeepsTree(fs, Masked(p), name);
      }
    case OpWrite(i, off, data) => SetDataKeepsTree(fs, Masked(i), WriteAt(Data(fs.nodes[Masked(i)]), off, data));
    case OpSetAttr(i, size) => SetDataKeepsTree(fs, Masked(i), Resize(Data(fs.nodes[Masked(i)]), size));
    case _ =>
  }

  // ---------------------------------------------------------------- runs of the tree

  /** Every operation of the run is allowed when its turn comes. */
  ghost predicate Permitted(fs: Fs, ops: seq<Op>)
    requires TreeOk(fs)
    decreases |ops|
  {
    ops == [] || (Allowed(fs, ops[0]) && (AfterIsTree(fs, ops[0]); Permitted(After(fs, ops[0]), ops[1..])))
  }

  ghost function EndOf(fs: Fs, ops: seq<Op>): Fs
    requires TreeOk(fs) && Permitted(fs, ops)
    decreases |ops|
  {
    if ops == [] then fs else
      AfterIsTree(fs, ops[0]);
      EndOf(After(fs, ops[0]), ops[1..])
  }

  ghost function AnswersOf(fs: Fs, ops: seq<Op>): (replies: seq<Reply>)
    requires TreeOk(fs) && Permitted(fs, ops)
    ensures |replies| == |ops|
    decreases |ops|
  {
    if ops == [] then [] else
      AfterIsTree(fs, ops[0]);
      [Answer(fs, ops[0])] + AnswersOf(After(fs, ops[0]), ops[1..])
  }

  lemma DeadStaysDead(fs: Fs, op: Op)
    requires Allowed(fs, op) && TreeOk(fs)
    ensures forall i :: i <= fs.last && i !in fs.nodes ==> i !in After(fs, op).nodes
  {
    hide TreeOk, Fits;
  }

  /** A run ends in a tree again, and a number that was handed out and is dead stays dead. */
  lemma {:induction false} RunKeepsTree(fs: Fs, ops: seq<Op>)
    requires TreeOk(fs) && Permitted(fs, ops)
    ensures TreeOk(EndOf(fs, ops)) && fs.last <= EndOf(fs, ops).last
    ensures forall i :: i <= fs.last && i !in fs.nodes ==> i !in EndOf(fs, ops).nodes
    decreases |ops|
  {
    if ops == [] {
    } else {
      hide TreeOk, Allowed;
      AfterIsTree(fs, ops[0]);
      DeadStaysDead(fs, ops[0]);
      RunKeepsTree(After(fs, ops[0]), ops[1..]);
    }
  }

  lemma {:induction false} RunAppend(fs: Fs, ops: seq<Op>, op: Op)
    requires TreeOk(fs) && Permitted(fs, ops + [op])
    ensures Permitted(fs, ops) && Allowed(EndOf(fs, ops), op)
    ensures AnswersOf(fs, ops + [op]) == AnswersOf(fs, ops) + [Answer(EndOf(fs, ops), op)]
    decreases |ops|
  {
    hide TreeOk, Allowed, After, Answer;
    if ops == [] {
      assert ops + [op] == [op];
    } else {
      assert (ops + [op])[1..] == ops[1..] + [op];
      AfterIsTree(fs, ops[0]);
      RunAppend(After(fs, ops[0]), ops[1..], op);
    }
  }

  // ---------------------------------------------------------------- contents over runs

  /** What one operation does to the bytes of node i. */
  function EditOf(op: Op, i: nat): seq<Edit> {
    match op
    case OpWrite(j, off, data) => if Masked(j) == i then [Write(off, data)] else []
    case OpSetAttr(j, size) => if Masked(j) == i then [SetSize(size)] else []
    case _ => []
  }

  function EditsOf(ops: seq<Op>, i: nat): seq<Edit> {
    if ops == [] then [] else EditOf(ops[0], i) + EditsOf(ops[1..], i)
  }

  /** The bytes of node i in the first state of the run in which it is a file or a link. */
  ghost function Born(fs: Fs, ops: seq<Op>, i: nat): seq<Byte>
    requires TreeOk(fs) && Permitted(fs, ops)
    decreases |ops|
  {
    if IsData(fs, i) then Data(fs.nodes[i])
    else if ops == [] then []
    else
      AfterIsTree(fs, ops[0]);
      Born(After(fs, ops[0]), ops[1..], i)
  }

  lemma StepEdits(fs: Fs, op: Op, i: nat)
    requires TreeOk(fs) && Allowed(fs, op) && IsData(fs, i) && i in After(fs, op).nodes
    ensures IsData(After(fs, op), i)
    ensures Data(After(fs, op).nodes[i]) == ApplyAll(Data(fs.nodes[i]), EditOf(op, i))
  {
    hide EntriesOk, NamesGoDown, NamedOnce, AllNamed, Fits, WriteAt, Resize;
    var c := Data(fs.nodes[i]);
    if EditOf(op, i) != [] {
      var e := EditOf(op, i)[0];
      assert [e][..0] == [];
      assert ApplyAll(c, [e]) == Apply(c, e);
    }
  }

  /** A node is a file or a link, or a directory, from its first day to its last; and an operation
      cannot edit a node that is neither file nor link yet. */
  lemma StepKeepsType(fs: Fs, op: Op, i: nat)
    requires TreeOk(fs) && Allowed(fs, op) && !IsData(fs, i)
    ensures i in fs.nodes ==> !IsData(After(fs, op), i)
    ensures EditOf(op, i) == []
  {
    hide EntriesOk, NamesGoDown, NamedOnce, AllNamed, Fits, WriteAt, Resize;
  }

  lemma NumberWasLive(fs: Fs, i: nat)
    requires TreeOk(fs) && i in fs.nodes
    ensures i <= fs.last
  {
    hide EntriesOk, NamesGoDown, NamedOnce, AllNamed;
  }

  /** The bytes a node has at the end of a run are those it was born with under its own writes and
      truncations, however the run mixes them with others. */
  lemma {:induction false} RunEdits(fs: Fs, ops: seq<Op>, i: nat)
    requires TreeOk(fs) && Permitted(fs, ops) && IsData(EndOf(fs, ops), i)
    ensures Data(EndOf(fs, ops).nodes[i]) == ApplyAll(Born(fs, ops, i), EditsOf(ops, i))
    decreases |ops|
  {
    if ops == [] {
    } else {
      hide TreeOk, Allowed, After, Data;
      var next := After(fs, ops[0]);
      AfterIsTree(fs, ops[0]);
      RunEdits(next, ops[1..], i);
      if IsData(fs, i) {
        NumberWasLive(fs, i);
        RunKeepsTree(next, ops[1..]);
        DeadStaysDead(fs, ops[0]);
        StepEdits(fs, ops[0], i);
        ApplyInTwoParts(Data(fs.nodes[i]), EditOf(ops[0], i), EditsOf(ops[1..], i));
      } else {
        StepKeepsType(fs, ops[0], i);
        assert EditsOf(ops, i) == EditsOf(ops[1..], i);
      }
    }
  }

  /** Over any run: every byte of every file, whether it was there at the start or was made on the
      way, is the one last written there, unless the file was cut at or before it since, and then
      it is zero. */
  lemma RunReadsLastWrite(fs: Fs, ops: seq<Op>, i: nat, p: nat)
    requires TreeOk(fs) && Permitted(fs, ops) && IsData(EndOf(fs, ops), i)
    ensures ByteAt(Data(EndOf(fs, ops).nodes[i]), p) == LastWord(Born(fs, ops, i), EditsOf(ops, i), p)
  {
    hide TreeOk, Permitted, Data;
    RunEdits(fs, ops, i);
    LastEditWins(Born(fs, ops, i), EditsOf(ops, i), p);
  }

  /** And its length is the one those writes and truncations give. */
  lemma RunLength(fs: Fs, ops: seq<Op>, i: nat)
    requires TreeOk(fs) && Permitted(fs, ops) && IsData(EndOf(fs, ops), i)
    ensures |Data(EndOf(fs, ops).nodes[i])| == LastLength(|Born(fs, ops, i)|, EditsOf(ops, i))
  {
    hide TreeOk, Permitted, Data;
    RunEdits(fs, ops, i);
    LastEditSetsLength(Born(fs, ops, i), EditsOf(ops, i));
  }

  lemma StepKeepsKind(fs: Fs, op: Op, i: nat)
    requires TreeOk(fs) && Allowed(fs, op) && i in fs.nodes && i in After(fs, op).nodes
    ensures IsReg(After(fs, op), i) <==> IsReg(fs, i)
    ensures IsLink(After(fs, op), i) <==> IsLink(fs, i)
    ensures IsDir(After(fs, op), i) <==> IsDir(fs, i)
  {
    hide EntriesOk, NamesGoDown, NamedOnce, AllNamed, Fits, WriteAt, Resize;
  }

  /** A node that lives through a run ends it as what it was. */
  lemma {:induction false} RunKeepsKind(fs: Fs, ops: seq<Op>, i: nat)
    requires TreeOk(fs) && Permitted(fs, ops) && i in fs.nodes && i in EndOf(fs, ops).nodes
    ensures IsReg(EndOf(fs, ops), i) <==> IsReg(fs, i)
    ensures IsLink(EndOf(fs, ops), i) <==> IsLink(fs, i)
    ensures IsDir(EndOf(fs, ops), i) <==> IsDir(fs, i)
    decreases |ops|
  {
    if ops == [] {
    } else {
      hide TreeOk, Allowed, After, IsReg, IsLink, IsDir;
      var next := After(fs, ops[0]);
      AfterIsTree(fs, ops[0]);
      NumberWasLive(fs, i);
      RunKeepsTree(next, ops[1..]);
      StepKeepsKind(fs, ops[0], i);
      RunKeepsKind(next, ops[1..], i);
    }
  }

  /** What a node made by one operation starts with. */
  function FirstBytes(op: Op): seq<Byte> {
    if op.OpSymlink? then op.link else []
  }

  lemma StepBirth(fs: Fs, op: Op, i: nat)
    requires TreeOk(fs) && Allowed(fs, op) && i !in fs.nodes && i in After(fs, op).nodes
    ensures i == fs.last + 1 && Answer(fs, op) == Number(OK, i)
    ensures IsReg(After(fs, op), i) <==> op.OpCreate?
    ensures IsLink(After(fs, op), i) <==> op.OpSymlink?
    ensures IsData(After(fs, op), i) ==> Data(After(fs, op).nodes[i]) == FirstBytes(op)
  {
    hide EntriesOk, NamesGoDown, NamedOnce, AllNamed, Fits, WriteAt, Resize;
  }

  /** Operation k of the run made node i, a file or a link as the operation says. */
  ghost predicate MadeBy(fs: Fs, ops: seq<Op>, i: nat, k: nat)
    requires TreeOk(fs) && Permitted(fs, ops)
  {
    && k < |ops| && (ops[k].OpCreate? || ops[k].OpSymlink?)
    && (IsReg(EndOf(fs, ops), i) <==> ops[k].OpCreate?)
    && AnswersOf(fs, ops)[k] == Number(OK, i)
    && Born(fs, ops, i) == FirstBytes(ops[k])
  }

  lemma BornAtOnce(fs: Fs, ops: seq<Op>, i: nat)
    requires TreeOk(fs) && Permitted(fs, ops) && i !in fs.nodes && IsData(EndOf(fs, ops), i)
    requires ops != [] && i in After(fs, ops[0]).nodes
    ensures MadeBy(fs, ops, i, 0)
  {
    hide TreeOk, Allowed, After, Data, Answer;
    var next := After(fs, ops[0]);
    AfterIsTree(fs, ops[0]);
    StepBirth(fs, ops[0], i);
    RunKeepsKind(next, ops[1..], i);
    assert EndOf(fs, ops) == EndOf(next, ops[1..]);
    assert IsData(next, i) && (ops[0].OpCreate? || ops[0].OpSymlink?);
    assert Born(fs, ops, i) == Born(next, ops[1..], i);
  }

  lemma MadeLater(fs: Fs, ops: seq<Op>, i: nat, k: nat)
    requires ops != [] && TreeOk(fs) && Permitted(fs, ops)
    requires i !in fs.nodes
    requires TreeOk(After(fs, ops[0])) && MadeBy(After(fs, ops[0]), ops[1..], i, k)
    ensures MadeBy(fs, ops, i, k + 1)
  {
    hide TreeOk, Allowed, After, Data, Answer, IsReg, FirstBytes;
    assert ops[k + 1] == ops[1..][k];
    assert EndOf(fs, ops) == EndOf(After(fs, ops[0]), ops[1..]);
  }

  /** A file or link made during a run was made by one operation of it, the one that was answered
      with its number; it was born empty, or with the target symlink gave it. */
  lemma {:induction false} BornByOneOperation(fs: Fs, ops: seq<Op>, i: nat)
    requires TreeOk(fs) && Permitted(fs, ops) && i !in fs.nodes && IsData(EndOf(fs, ops), i)
    ensures exists k: nat :: MadeBy(fs, ops, i, k)
    decreases |ops|
  {
    if ops == [] {
    } else {
      hide TreeOk, Allowed, After, Answer, MadeBy;
      var next := After(fs, ops[0]);
      AfterIsTree(fs, ops[0]);
      if i in next.nodes {
        BornAtOnce(fs, ops, i);
      } else {
        BornByOneOperation(next, ops[1..], i);
        var k: nat :| MadeBy(next, ops[1..], i, k);
        MadeLater(fs, ops, i, k);
      }
    }
  }

  // ---------------------------------------------------------------- runs of the implementation

  lemma LinkFits(fs: Fs, p: nat, name: Text, link: seq<Byte>)
    requires TreeOk(fs) && IsDir(fs, p) && Fits(AddChild(fs, p, name, Link(link)))
    ensures |link| <= MAX_SIZE
  {
    hide Demand, StoreOf, EntriesOk, NamesGoDown, NamedOnce, AllNamed;
    assert AddChild(fs, p, name, Link(link)).nodes[fs.last + 1] == Link(link);
  }

  /** One operation of the client, on the disk. */
  method Perform(c: YfsClient, op: Op) returns (reply: Reply)
    requires c.Valid() && TreeOk(c.fs) && Allowed(c.fs, op)
    modifies c, c.ec.im, c.ec.im.bm.blocks
    ensures c.Valid() && c.fs == After(old(c.fs), op)
    ensures reply == Answer(old(c.fs), op)
  {
    hide TreeOk, Fits, Sound, StoreOf, Store, WriteAt, Resize, AppendName;
    match op {
      case OpCreate(p, name) =>
        var r, i := c.Create(p, name);
        reply := Number(r, i);
      case OpMkdir(p, name) =>
        var r, i := c.Mkdir(p, name);
        reply := Number(r, i);
      case OpSymlink(p, link, name) =>
        LinkFits(c.fs, Masked(p), name, link);
        var r, i := c.Symlink(p, link, name);
        reply := Number(r, i);
      case OpUnlink(p, name) =>
        if HasName(c.fs, Masked(p), name) {
          TargetIsChild(c.fs, Masked(p), name);
        }
        var r := c.Unlink(p, name);
        reply := Plain(r);
      case OpLookup(p, name) =>
        var r, found, i := c.Lookup(p, name, false, 0);
        reply := Number(r, i);
      case OpReadDir(d) =>
        var r, list := c.ReadDir(d);
        reply := Entries(r, list);
      case OpRead(i, size, off) =>
        var r, data := c.Read(i, size, off);
        reply := Content(r, data);
      case OpReadLink(i) =>
        var r, data := c.ReadLink(i);
        reply := Content(r, data);
      case OpWrite(i, off, data) =>
        ghost var before := Data(c.fs.nodes[Masked(i)]);
        c.NodeBytes(Masked(i));
        c.RoomInTree(Masked(i), WriteAt(before, off, data));
        var n := c.Write(i, off, data);
        reply := Count(OK, n);
      case OpSetAttr(i, size) =>
        ghost var before := Data(c.fs.nodes[Masked(i)]);
        c.NodeBytes(Masked(i));
        c.RoomInTree(Masked(i), Resize(before, size));
        c.SetAttr(i, size);
        reply := Plain(OK);
    }
  }

  /** End to end: any permitted run, performed on the simulated disk, gives the answers of the
      plain tree and leaves the disk standing for the tree's final state. */
  method Run(c: YfsClient, ops: seq<Op>) returns (replies: seq<Reply>)
    requires c.Valid() && TreeOk(c.fs) && Permitted(c.fs, ops)
    modifies c, c.ec.im, c.ec.im.bm.blocks
    ensures c.Valid() && TreeOk(c.fs)
    ensures c.fs == EndOf(old(c.fs), ops)
    ensures replies == AnswersOf(old(c.fs), ops)
  {
    hide TreeOk, Allowed, After, Answer, Sound, StoreOf, Store;
    replies := [];
    ghost var start := c.fs;
    assert ops[0..] == ops;
    for k := 0 to |ops|
      invariant c.Valid() && TreeOk(c.fs) && Permitted(c.fs, ops[k..])
      invariant EndOf(c.fs, ops[k..]) == EndOf(start, ops)
      invariant replies + AnswersOf(c.fs, ops[k..]) == AnswersOf(start, ops)
    {
      AfterIsTree(c.fs, ops[k]);
      assert ops[k..][0] == ops[k] && ops[k..][1..] == ops[k + 1..];
      var reply := Perform(c, ops[k]);
      replies := replies + [reply];
    }
  }

  // ---------------------------------------------------------------- doing and undoing

  /** Removing the child just added leaves every node, and every order of entries, as it was. */
  lemma UnlinkUndoesCreate(fs: Fs, d: nat, name: Text, n: Node)
    requires TreeOk(fs) && IsDir(fs, d) && !HasName(fs, d, name)
    ensures var g := AddChild(fs, d, name, n);
            HasName(g, d, name) && Target(g, d, name) == fs.last + 1 != d && RemoveChild(g, d, name).nodes == fs.nodes
  {
    hide EntriesOk, NamesGoDown, NamedOnce, AllNamed;
    var es := fs.nodes[d].entries;
    var e := Dirent(name, fs.last + 1);
    var g := AddChild(fs, d, name, n);
    FindAppended(es, e);
    assert RemoveName(es + [e], name) == es;
    hide RemoveName, FindName;
    assert RemoveChild(g, d, name).nodes == fs.nodes;
  }

  /** create followed by unlink restores every file, the text of the parent included, and the
      number of free blocks. */
  method CreateThenUnlink(c: YfsClient, parent: nat, name: Text)
    requires c.Valid() && TreeOk(c.fs) && IsDir(c.fs, Masked(parent)) && ValidName(name)
    requires !HasName(c.fs, Masked(parent), name) && Fits(AddChild(c.fs, Masked(parent), name, Reg([])))
    modifies c, c.ec.im, c.ec.im.bm.blocks
    ensures c.Valid() && c.fs.nodes == old(c.fs.nodes)
    ensures c.ec.Files() == old(c.ec.Files())
    ensures |Used(c.ec.im.bm.Disk())| == |Used(old(c.ec.im.bm.Disk()))|
  {
    hide TreeOk, Fits, Sound, StoreOf, Store, Used, Demand;
    UsedCount(c.ec.im.bm.Disk(), c.ec.im.lastInum);
    UnlinkUndoesCreate(c.fs, Masked(parent), name, Reg([]));
    assert c.fs.last + 1 in AddChild(c.fs, Masked(parent), name, Reg([])).nodes;
    var r, i := c.Create(parent, name);
    r := c.Unlink(parent, name);
    UsedCount(c.ec.im.bm.Disk(), c.ec.im.lastInum);
  }
}
