/** What a client is told. For each operation, the reply that ends a run, as a law about the run
    alone: bytes and lengths from the writes and truncations in it, names from the finite maps. */
module Replies {
  import opened Bytes
  import opened DirText
  import opened ByteRange
  import opened FileSystem
  import opened ExtentLayer
  import opened ClientLayer
  import opened Runs
  import opened Namespace

  /** The reply to an operation after a run. */
  ghost function LastReply(fs: Fs, ops: seq<Op>, op: Op): Reply
    requires TreeOk(fs) && Permitted(fs, ops + [op])
  {
    AnswersOf(fs, ops + [op])[|ops|]
  }

  /** The length of node i after a run. */
  ghost function LengthAfter(fs: Fs, ops: seq<Op>, i: nat): nat
    requires TreeOk(fs) && Permitted(fs, ops)
  {
    LastLength(|Born(fs, ops, i)|, EditsOf(ops, i))
  }

  /** Byte p of node i after a run. */
  ghost function ByteAfter(fs: Fs, ops: seq<Op>, i: nat, p: nat): Byte
    requires TreeOk(fs) && Permitted(fs, ops)
  {
    LastWord(Born(fs, ops, i), EditsOf(ops, i), p)
  }

  // ---------------------------------------------------------------- contents

  /** read answers as many bytes as were asked for and there are, each the one last written there;
      IOERR for what is no file. */
  lemma ReadReply(fs: Fs, ops: seq<Op>, id: nat, size: nat, off: nat)
    requires TreeOk(fs) && Permitted(fs, ops + [OpRead(id, size, off)])
    ensures Permitted(fs, ops)
    ensures var reply := LastReply(fs, ops, OpRead(id, size, off));
            if IsReg(EndOf(fs, ops), Masked(id)) then
              var length := LengthAfter(fs, ops, Masked(id));
              && off <= length
              && reply.Content? && reply.status == OK
              && |reply.data| == (if off + size <= length then size else length - off)
              && forall k :: 0 <= k < |reply.data| ==> reply.data[k] == ByteAfter(fs, ops, Masked(id), off + k)
            else reply == Content(IOERR, [])
  {
    hide TreeOk, LastWord, LastLength;
    RunAppend(fs, ops, OpRead(id, size, off));
    var end, i := EndOf(fs, ops), Masked(id);
    if IsReg(end, i) {
      RunLength(fs, ops, i);
      var data := ReadAt(end.nodes[i].data, off, size);
      forall k | 0 <= k < |data| ensures data[k] == ByteAfter(fs, ops, i, off + k) {
        ReadIsByteAt(end.nodes[i].data, off, size, k);
        RunReadsLastWrite(fs, ops, i, off + k);
      }
    }
  }

  /** readlink answers the whole target; IOERR for what is no link. */
  lemma ReadLinkReply(fs: Fs, ops: seq<Op>, id: nat)
    requires TreeOk(fs) && Permitted(fs, ops + [OpReadLink(id)])
    ensures Permitted(fs, ops)
    ensures var reply := LastReply(fs, ops, OpReadLink(id));
            if IsLink(EndOf(fs, ops), Masked(id)) then
              && reply.Content? && reply.status == OK
              && |reply.data| == LengthAfter(fs, ops, Masked(id))
              && forall k :: 0 <= k < |reply.data| ==> reply.data[k] == ByteAfter(fs, ops, Masked(id), k)
            else reply == Content(IOERR, [])
  {
    hide TreeOk, LastWord, LastLength;
    RunAppend(fs, ops, OpReadLink(id));
    var end, i := EndOf(fs, ops), Masked(id);
    if IsLink(end, i) {
      RunLength(fs, ops, i);
      var data := end.nodes[i].target;
      forall k | 0 <= k < |data| ensures data[k] == ByteAfter(fs, ops, i, k) {
        RunReadsLastWrite(fs, ops, i, k);
      }
    }
  }

  /** write answers the number of bytes given and, when it starts past the end, those of the hole. */
  lemma WriteReply(fs: Fs, ops: seq<Op>, id: nat, off: nat, data: seq<Byte>)
    requires TreeOk(fs) && Permitted(fs, ops + [OpWrite(id, off, data)])
    ensures Permitted(fs, ops)
    ensures var before := LengthAfter(fs, ops, Masked(id));
            LastReply(fs, ops, OpWrite(id, off, data)) ==
              Count(OK, |data| + if off > before then off - before else 0)
  {
    hide TreeOk, LastLength, Fits, WriteAt;
    RunAppend(fs, ops, OpWrite(id, off, data));
    RunLength(fs, ops, Masked(id));
  }

  lemma SetAttrReply(fs: Fs, ops: seq<Op>, id: nat, size: nat)
    requires TreeOk(fs) && Permitted(fs, ops + [OpSetAttr(id, size)])
    ensures LastReply(fs, ops, OpSetAttr(id, size)) == Plain(OK)
  {
    hide TreeOk, Fits, Resize;
    RunAppend(fs, ops, OpSetAttr(id, size));
  }

  // ---------------------------------------------------------------- names

  /** Entries stand in the order in which their nodes were made. */
  ghost predicate ByNumber(es: seq<Dirent>) {
    forall a, b :: 0 <= a < b < |es| ==> es[a].inum < es[b].inum
  }

  ghost predicate Ordered(fs: Fs) {
    forall d :: IsDir(fs, d) ==> ByNumber(fs.nodes[d].entries)
  }

  lemma AddKeepsOrder(fs: Fs, d: nat, name: Text, n: Node)
    requires TreeOk(fs) && Ordered(fs) && IsDir(fs, d) && (n.Dir? ==> n.entries == [])
    ensures Ordered(AddChild(fs, d, name, n))
  {
    hide EntriesOk, NamedOnce, AllNamed;
    var g := AddChild(fs, d, name, n);
    var es := fs.nodes[d].entries;
    forall k: nat | k < |es| ensures es[k].inum <= fs.last {
      assert Names(fs, d, k, es[k].inum);
    }
    forall e | IsDir(g, e) ensures ByNumber(g.nodes[e].entries) {
      if e != d && e != fs.last + 1 {
        assert IsDir(fs, e);
      }
    }
  }

  lemma RemoveKeepsOrder(fs: Fs, d: nat, name: Text)
    requires Ordered(fs) && HasName(fs, d, name) && Target(fs, d, name) != d
    ensures Ordered(RemoveChild(fs, d, name))
  {
    hide FindName;
    var g := RemoveChild(fs, d, name);
    forall e | IsDir(g, e) ensures ByNumber(g.nodes[e].entries) {
      assert IsDir(fs, e);
    }
  }

  lemma SetDataKeepsOrder(fs: Fs, i: nat, data: seq<Byte>)
    requires Ordered(fs) && IsData(fs, i)
    ensures Ordered(SetData(fs, i, data))
  {
    var g := SetData(fs, i, data);
    assert forall e :: IsDir(g, e) ==> IsDir(fs, e) && g.nodes[e] == fs.nodes[e];
  }

  lemma StepKeepsOrder(fs: Fs, op: Op)
    requires TreeOk(fs) && Ordered(fs) && Allowed(fs, op)
    ensures Ordered(After(fs, op))
  {
    hide TreeOk, Ordered, Fits, WriteAt, Resize, AddChild, RemoveChild, SetData;
    match op
    case OpCreate(p, name) => AddKeepsOrder(fs, Masked(p), name, Reg([]));
    case OpMkdir(p, name) => AddKeepsOrder(fs, Masked(p), name, Dir([]));
    case OpSymlink(p, link, name) => AddKeepsOrder(fs, Masked(p), name, Link(link));
    case OpUnlink(p, name) =>
      if HasName(fs, Masked(p), name) {
        TargetIsChild(fs, Masked(p), name);
        RemoveKeepsOrder(fs, Masked(p), name);
      }
    case OpWrite(i, off, data) => SetDataKeepsOrder(fs, Masked(i), WriteAt(Data(fs.nodes[Masked(i)]), off, data));
    case OpSetAttr(i, size) => SetDataKeepsOrder(fs, Masked(i), Resize(Data(fs.nodes[Masked(i)]), size));
    case _ =>
  }

  /** In every run directories list their entries in the order of making. */
  lemma {:induction false} RunKeepsOrder(fs: Fs, ops: seq<Op>)
    requires TreeOk(fs) && Ordered(fs) && Permitted(fs, ops)
    ensures Ordered(EndOf(fs, ops))
    decreases |ops|
  {
    if ops == [] {
    } else {
      hide TreeOk, Ordered, Allowed, After;
      AfterIsTree(fs, ops[0]);
      StepKeepsOrder(fs, ops[0]);
      RunKeepsOrder(After(fs, ops[0]), ops[1..]);
    }
  }

  lemma EmptyIsOrdered()
    ensures TreeOk(Empty()) && Ordered(Empty())
  {}

  /** list is a listing of a map: every binding once. */
  ghost predicate Lists(list: seq<Dirent>, names: map<Text, nat>) {
    && |list| == |names|
    && UniqueNames(list)
    && forall k :: 0 <= k < |list| ==> list[k].name in names && names[list[k].name] == list[k].inum
  }

  lemma NotBoundBefore(es: seq<Dirent>, n: nat)
    requires UniqueNames(es) && n < |es|
    ensures !Bound(es[..n], es[n].name)
  {}

  lemma {:induction false} BindingsSize(es: seq<Dirent>)
    requires UniqueNames(es)
    ensures |Bindings(es)| == |es|
    decreases |es|
  {
    if es == [] {
      NoEntriesNoBindings();
    } else {
      var n := |es| - 1;
      BindingsSize(es[..n]);
      assert es == es[..n] + [es[n]];
      NotBoundBefore(es, n);
      AppendBinds(es[..n], es[n]);
      LookupIsBinding(es[..n], es[n].name);
    }
  }

  lemma EntriesListBindings(es: seq<Dirent>)
    requires UniqueNames(es)
    ensures Lists(es, Bindings(es))
  {
    BindingsSize(es);
    hide Bindings, FindName;
    forall k | 0 <= k < |es| ensures es[k].name in Bindings(es) && Bindings(es)[es[k].name] == es[k].inum {
      UniqueIsFound(es, k);
      LookupIsBinding(es, es[k].name);
    }
  }

  ghost function NameSet(list: seq<Dirent>): set<Text> {
    set k | 0 <= k < |list| :: list[k].name
  }

  lemma {:induction false} NameSetSize(list: seq<Dirent>)
    requires UniqueNames(list)
    ensures |NameSet(list)| == |list|
    decreases |list|
  {
    if list == [] {
      assert NameSet(list) == {};
    } else {
      var n := |list| - 1;
      NameSetSize(list[..n]);
      assert list == list[..n] + [list[n]];
      assert NameSet(list) == NameSet(list[..n]) + {list[n].name};
    }
  }

  lemma SubsetSize<T>(a: set<T>, b: set<T>)
    requires a <= b
    ensures |a| <= |b|
  {
    assert b == a + (b - a);
  }

  /** The names of a listing are all the names of the map. */
  lemma ListingIsComplete(list: seq<Dirent>, names: map<Text, nat>, name: Text)
    requires Lists(list, names) && name in names
    ensures exists k :: 0 <= k < |list| && list[k].name == name
  {
    var listed := NameSet(list);
    NameSetSize(list);
    if name !in listed {
      assert listed + {name} <= names.Keys;
      SubsetSize(listed + {name}, names.Keys);
      assert false;
    }
  }

  lemma {:induction false} SamePosition(a: seq<Dirent>, b: seq<Dirent>, names: map<Text, nat>, k: nat)
    requires Lists(a, names) && Lists(b, names) && ByNumber(a) && ByNumber(b) && k < |a|
    ensures a[k] == b[k]
  {
    forall j: nat | j < k ensures a[j] == b[j] {
      SamePosition(a, b, names, j);
    }
    ListingIsComplete(b, names, a[k].name);
    ListingIsComplete(a, names, b[k].name);
    var p :| 0 <= p < |b| && b[p].name == a[k].name;
    var q :| 0 <= q < |a| && a[q].name == b[k].name;
    assert b[p] == a[k] && a[q] == b[k];
  }

  /** A map has one listing by number: the map determines the reply of readdir. */
  lemma ListingIsUnique(a: seq<Dirent>, b: seq<Dirent>, names: map<Text, nat>)
    requires Lists(a, names) && Lists(b, names) && ByNumber(a) && ByNumber(b)
    ensures a == b
  {
    forall k | 0 <= k < |a| ensures a[k] == b[k] {
      SamePosition(a, b, names, k);
    }
  }

  /** readdir answers a listing of the directory's map, by number if the run began so, as it does
      on an empty root; and IOERR for what is no directory. */
  lemma ReadDirReply(fs: Fs, ops: seq<Op>, id: nat)
    requires TreeOk(fs) && Permitted(fs, ops + [OpReadDir(id)])
    ensures var reply := LastReply(fs, ops, OpReadDir(id));
            var dirs := NamesEnd(NamesOf(fs), ops).dirs;
            if Masked(id) in dirs then
              && reply.Entries? && reply.status == OK
              && Lists(reply.list, dirs[Masked(id)])
              && (Ordered(fs) ==> ByNumber(reply.list))
            else reply == Entries(IOERR, [])
  {
    hide Lists, NamesEnd, NumbersOk, NamesGoDown, NamedOnce, AllNamed;
    RunAppend(fs, ops, OpReadDir(id));
    RunRefinesNames(fs, ops);
    RunKeepsTree(fs, ops);
    if Ordered(fs) {
      RunKeepsOrder(fs, ops);
    }
    var end, d := EndOf(fs, ops), Masked(id);
    if IsDir(end, d) {
      EntriesListBindings(end.nodes[d].entries);
    }
  }

  /** create, mkdir, symlink, unlink and lookup answer from the maps. */
  lemma NamingReply(fs: Fs, ops: seq<Op>, op: Op)
    requires TreeOk(fs) && Permitted(fs, ops + [op]) && IsNaming(op)
    ensures LastReply(fs, ops, op) == NamesAnswer(NamesEnd(NamesOf(fs), ops), op)
  {
    hide TreeOk, Permitted, NamesAnswer, NamesEnd, NamesOf, AnswersOf;
    AnswersFromNames(fs, ops + [op], |ops|);
    assert (ops + [op])[..|ops|] == ops;
  }
}
