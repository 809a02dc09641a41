/** The file system its users see: a tree of directories, files and links, independent of text,
    inodes and blocks; its operations; and what makes it a tree. */
module FileSystem {
  import opened Bytes
  import opened Geometry
  import opened Layout
  import opened Ownership
  import opened InodeLayer
  import opened DirText

  datatype Node =
    | Dir(entries: seq<Dirent>)
    | Reg(data: seq<Byte>)
    | Link(target: seq<Byte>)

  /** All nodes by number, and the last number handed out. */
  datatype Fs = Fs(nodes: map<nat, Node>, last: nat)

  // ---------------------------------------------------------------- the tree stored as extents

  function NodeFile(n: Node): File {
    match n
    case Dir(entries) => File(T_DIR, PrintDir(entries))
    case Reg(data) => File(T_FILE, data)
    case Link(target) => File(T_SYMLINK, target)
  }

  function StoreOf(nodes: map<nat, Node>): map<nat, File> {
    map i | i in nodes :: NodeFile(nodes[i])
  }

  /** Everything fits: each file in an inode, and all of them on the disk. */
  predicate Fits(fs: Fs) {
    && fs.last < INODE_NUM
    && Demand(StoreOf(fs.nodes)) <= DATA_BLOCKS
    && forall i :: i in fs.nodes ==> |NodeFile(fs.nodes[i]).data| <= MAX_SIZE
  }

  lemma StoreUpdate(nodes: map<nat, Node>, i: nat, n: Node)
    ensures StoreOf(nodes[i := n]) == StoreOf(nodes)[i := NodeFile(n)]
  {}

  lemma StoreRemove(nodes: map<nat, Node>, i: nat)
    ensures StoreOf(nodes - {i}) == StoreOf(nodes) - {i}
  {}

  lemma OwnedCountMonotone(a: nat, b: nat)
    requires a <= b
    ensures OwnedCount(a) <= OwnedCount(b)
  {}

  /** A node with no fewer bytes needs no fewer blocks. */
  lemma DemandMonotone(nodes: map<nat, Node>, i: nat, n: Node)
    requires i in nodes ==> |NodeFile(nodes[i]).data| <= |NodeFile(n).data|
    ensures Demand(StoreOf(nodes)) <= Demand(StoreOf(nodes[i := n]))
  {
    hide NodeFile;
    StoreUpdate(nodes, i, n);
    DemandBelowUpdate(StoreOf(nodes), i, NodeFile(n), INODE_NUM);
    if i in nodes {
      OwnedCountMonotone(|NodeFile(nodes[i]).data|, |NodeFile(n).data|);
    }
  }

  lemma DemandRemove(nodes: map<nat, Node>, i: nat)
    ensures Demand(StoreOf(nodes - {i})) <= Demand(StoreOf(nodes))
  {
    StoreRemove(nodes, i);
    DemandBelowRemove(StoreOf(nodes), i, INODE_NUM);
  }

  // ---------------------------------------------------------------- operations

  predicate IsDir(fs: Fs, i: nat) {
    i in fs.nodes && fs.nodes[i].Dir?
  }

  predicate HasName(fs: Fs, d: nat, name: Text) {
    IsDir(fs, d) && Bound(fs.nodes[d].entries, name)
  }

  function Target(fs: Fs, d: nat, name: Text): nat
    requires HasName(fs, d, name)
  {
    var es := fs.nodes[d].entries;
    es[FindName(es, name)].inum
  }

  /** A node with one printed entry appended to its stored bytes: one more entry in a directory,
      and plain text in anything else, for nothing stops symlink from naming such a parent. */
  function AppendName(n: Node, e: Dirent): Node {
    match n
    case Dir(entries) => Dir(entries + [e])
    case Reg(data) => Reg(data + PrintEntry(e))
    case Link(target) => Link(target + PrintEntry(e))
  }

  lemma AppendNameText(n: Node, e: Dirent)
    ensures NodeFile(AppendName(n, e)) == File(NodeFile(n).kind, NodeFile(n).data + PrintEntry(e))
  {
    hide PrintEntry;
    if n.Dir? {
      PrintAppend(n.entries, e);
    }
  }

  /** A new node under the next number, its name and number appended to node d. */
  function AddChild(fs: Fs, d: nat, name: Text, n: Node): Fs
    requires d in fs.nodes
  {
    var i := fs.last + 1;
    Fs(fs.nodes[i := n][d := AppendName(fs.nodes[d], Dirent(name, i))], i)
  }

  /** The named node and its name gone. */
  function RemoveChild(fs: Fs, d: nat, name: Text): Fs
    requires HasName(fs, d, name) && Target(fs, d, name) != d
  {
    var nodes := fs.nodes - {Target(fs, d, name)};
    Fs(nodes[d := Dir(RemoveName(fs.nodes[d].entries, name))], fs.last)
  }

  function WithData(n: Node, data: seq<Byte>): Node
    requires !n.Dir?
  {
    if n.Reg? then Reg(data) else Link(data)
  }

  function Data(n: Node): seq<Byte>
    requires !n.Dir?
  {
    if n.Reg? then n.data else n.target
  }

  predicate IsData(fs: Fs, i: nat) {
    i in fs.nodes && !fs.nodes[i].Dir?
  }

  function SetData(fs: Fs, i: nat, data: seq<Byte>): Fs
    requires IsData(fs, i)
  {
    fs.(nodes := fs.nodes[i := WithData(fs.nodes[i], data)])
  }

  // ---------------------------------------------------------------- what makes it a tree

  /** Entry k of directory d names node i. */
  predicate Names(fs: Fs, d: nat, k: nat, i: nat) {
    IsDir(fs, d) && k < |fs.nodes[d].entries| && fs.nodes[d].entries[k].inum == i
  }

  ghost predicate Named(fs: Fs, i: nat) {
    exists d: nat, k: nat :: Names(fs, d, k, i)
  }

  ghost predicate NumbersOk(fs: Fs) {
    fs.last < INT_LIMIT && IsDir(fs, 1) && forall i :: i in fs.nodes ==> 1 <= i <= fs.last
  }

  ghost predicate EntriesOk(fs: Fs) {
    forall d :: IsDir(fs, d) ==> ValidEntries(fs.nodes[d].entries) && UniqueNames(fs.nodes[d].entries)
  }

  /** Every name leads to a node, and numbers grow downwards: there are no cycles. */
  ghost predicate NamesGoDown(fs: Fs) {
    forall d: nat, k: nat, i: nat :: Names(fs, d, k, i) ==> i in fs.nodes && d < i
  }

  ghost predicate NamedOnce(fs: Fs) {
    forall d: nat, k: nat, e: nat, l: nat, i: nat :: Names(fs, d, k, i) && Names(fs, e, l, i) ==> d == e && k == l
  }

  ghost predicate AllNamed(fs: Fs) {
    forall i :: i in fs.nodes && i != 1 ==> Named(fs, i)
  }

  ghost predicate TreeOk(fs: Fs) {
    NumbersOk(fs) && EntriesOk(fs) && NamesGoDown(fs) && NamedOnce(fs) && AllNamed(fs)
  }

  /** The initial file system: an empty root. */
  function Empty(): Fs {
    Fs(map[1 := Dir([])], 1)
  }

  lemma EmptyIsTree()
    ensures TreeOk(Empty())
  {}

  // ---- adding

  /** The names of the tree with one more child. */
  ghost predicate NamesAdded(fs: Fs, g: Fs, d: nat, at: nat, child: nat) {
    forall e: nat, k: nat, i: nat :: Names(g, e, k, i) <==> Names(fs, e, k, i) || (e == d && k == at && i == child)
  }

  lemma AddNames(fs: Fs, d: nat, name: Text, n: Node)
    requires TreeOk(fs) && IsDir(fs, d)
    requires n.Dir? ==> n.entries == []
    ensures NamesAdded(fs, AddChild(fs, d, name, n), d, |fs.nodes[d].entries|, fs.last + 1)
  {
    hide EntriesOk, NamesGoDown, NamedOnce, AllNamed;
  }

  lemma AddKeepsEntries(fs: Fs, d: nat, name: Text, n: Node)
    requires TreeOk(fs) && IsDir(fs, d) && ValidName(name) && fs.last + 1 < INT_LIMIT
    requires n.Dir? ==> n.entries == []
    requires !HasName(fs, d, name)
    ensures NumbersOk(AddChild(fs, d, name, n)) && EntriesOk(AddChild(fs, d, name, n))
  {
    hide NamesGoDown, NamedOnce, AllNamed;
    var g := AddChild(fs, d, name, n);
    forall e | IsDir(g, e)
      ensures ValidEntries(g.nodes[e].entries) && UniqueNames(g.nodes[e].entries)
    {
      if e != d && e != fs.last + 1 {
        assert IsDir(fs, e);
      }
    }
  }

  lemma AddKeepsNaming(fs: Fs, g: Fs, d: nat, at: nat, child: nat)
    requires TreeOk(fs) && NamesAdded(fs, g, d, at, child)
    requires g.nodes.Keys == fs.nodes.Keys + {child} && child !in fs.nodes && d < child
    ensures NamesGoDown(g) && NamedOnce(g) && AllNamed(g)
  {
    hide EntriesOk, IsDir, Names;
    assert Names(g, d, at, child);
    forall i | i in g.nodes && i != 1 ensures Named(g, i) {
      if i != child {
        assert Named(fs, i);
        var e: nat, k: nat :| Names(fs, e, k, i);
        assert Names(g, e, k, i);
      }
    }
  }

  /** Appended to a file or a link, the name of the new node is no name. */
  lemma AddUnderDataOrphans(fs: Fs, d: nat, name: Text, n: Node)
    requires TreeOk(fs) && d in fs.nodes && !IsDir(fs, d)
    requires n.Dir? ==> n.entries == []
    ensures !AllNamed(AddChild(fs, d, name, n))
  {
    hide EntriesOk, NamedOnce;
    var g := AddChild(fs, d, name, n);
    var i := fs.last + 1;
    forall e: nat, k: nat ensures !Names(g, e, k, i) {
      assert Names(g, e, k, i) ==> Names(fs, e, k, i);
    }
    assert i in g.nodes && i != 1 && !Named(g, i);
  }

  lemma AddDuplicates(fs: Fs, d: nat, name: Text, n: Node)
    requires HasName(fs, d, name)
    ensures !EntriesOk(AddChild(fs, d, name, n))
  {
    hide FindName;
    var es := fs.nodes[d].entries;
    var g := AddChild(fs, d, name, n);
    assert g.nodes[d].entries[FindName(es, name)].name == g.nodes[d].entries[|es|].name;
    assert IsDir(g, d) && !UniqueNames(g.nodes[d].entries);
  }

  /** A node is added without breaking the tree exactly when its parent is a directory and its
      name is free there. */
  lemma AddKeepsTree(fs: Fs, d: nat, name: Text, n: Node)
    requires TreeOk(fs) && d in fs.nodes && ValidName(name) && fs.last + 1 < INT_LIMIT
    requires n.Dir? ==> n.entries == []
    ensures TreeOk(AddChild(fs, d, name, n)) <==> IsDir(fs, d) && !HasName(fs, d, name)
  {
    hide EntriesOk, NamesGoDown, NamedOnce, AllNamed;
    var g := AddChild(fs, d, name, n);
    if !IsDir(fs, d) {
      AddUnderDataOrphans(fs, d, name, n);
    } else if HasName(fs, d, name) {
      AddDuplicates(fs, d, name, n);
    } else {
      AddKeepsEntries(fs, d, name, n);
      AddNames(fs, d, name, n);
      AddKeepsNaming(fs, g, d, |fs.nodes[d].entries|, fs.last + 1);
    }
  }

  /** A tree on which symlink breaks the tree: the root holds a file a, and a link a is made. The
      root then has two entries a; lookup still finds the file, the link has no path. */
  lemma SymlinkCanDuplicate()
    ensures exists fs: Fs, name: Text, link: Node ::
      && TreeOk(fs) && IsDir(fs, 1) && link.Link?
      && var g := AddChild(fs, 1, name, link);
         g.nodes[1] == Dir([Dirent(name, 2), Dirent(name, 3)]) && Target(g, 1, name) == 2 && !TreeOk(g)
  {
    var a: Text := [97];
    var link := Link([98]);
    EmptyIsTree();
    AddKeepsTree(Empty(), 1, a, Reg([]));
    var one := AddChild(Empty(), 1, a, Reg([]));
    assert one.nodes[1].entries == [Dirent(a, 2)];
    assert HasName(one, 1, a);
    AddKeepsTree(one, 1, a, link);
    var g := AddChild(one, 1, a, link);
    assert g.nodes[1] == Dir([Dirent(a, 2), Dirent(a, 3)]);
    assert Target(g, 1, a) == 2;
  }

  // ---- removing

  /** Where entry k of a list was before the entry at position f was erased. */
  function Before(f: nat, k: nat): nat {
    if k < f then k else k + 1
  }

  /** The names of the tree without the child that entry f of directory d named. */
  ghost predicate NamesRemoved(fs: Fs, g: Fs, d: nat, f: nat, child: nat) {
    forall e: nat, k: nat, i: nat ::
      Names(g, e, k, i) <==> e != child && Names(fs, e, if e == d then Before(f, k) else k, i)
  }

  lemma TargetIsChild(fs: Fs, d: nat, name: Text)
    requires TreeOk(fs) && HasName(fs, d, name)
    ensures Names(fs, d, FindName(fs.nodes[d].entries, name), Target(fs, d, name))
    ensures Target(fs, d, name) in fs.nodes && d < Target(fs, d, name) && Target(fs, d, name) != 1
  {
    hide EntriesOk, NamedOnce, AllNamed;
    assert Names(fs, d, FindName(fs.nodes[d].entries, name), Target(fs, d, name));
  }

  lemma RemoveNames(fs: Fs, d: nat, name: Text)
    requires HasName(fs, d, name) && Target(fs, d, name) != d
    ensures NamesRemoved(fs, RemoveChild(fs, d, name), d, FindName(fs.nodes[d].entries, name), Target(fs, d, name))
  {
    hide FindName;
    var f := FindName(fs.nodes[d].entries, name);
    var g := RemoveChild(fs, d, name);
    forall e: nat, k: nat, i: nat
      ensures Names(g, e, k, i) <==> e != Target(fs, d, name) && Names(fs, e, if e == d then Before(f, k) else k, i)
    {
      if e == d {}
    }
  }

  lemma RemoveKeepsEntries(fs: Fs, d: nat, name: Text)
    requires TreeOk(fs) && HasName(fs, d, name) && Target(fs, d, name) != d && Target(fs, d, name) != 1
    ensures NumbersOk(RemoveChild(fs, d, name)) && EntriesOk(RemoveChild(fs, d, name))
  {
    hide NamesGoDown, NamedOnce, AllNamed, FindName;
    var g := RemoveChild(fs, d, name);
    forall e | IsDir(g, e)
      ensures ValidEntries(g.nodes[e].entries) && UniqueNames(g.nodes[e].entries)
    {
      assert IsDir(fs, e);
    }
  }

  /** Without its name the child is gone and every other node still has its own, provided the
      child named nothing itself. */
  lemma RemoveKeepsNaming(fs: Fs, g: Fs, d: nat, f: nat, child: nat)
    requires TreeOk(fs) && NamesRemoved(fs, g, d, f, child)
    requires Names(fs, d, f, child)
    requires g.nodes.Keys == fs.nodes.Keys - {child}
    requires forall k: nat, i: nat :: !Names(fs, child, k, i)
    ensures NamesGoDown(g) && NamedOnce(g) && AllNamed(g)
  {
    hide EntriesOk, IsDir;
    forall e: nat, k: nat, i: nat | Names(g, e, k, i) ensures i in g.nodes && e < i {
      assert Names(fs, e, if e == d then Before(f, k) else k, i);
    }
    forall e: nat, k: nat, e': nat, l: nat, i: nat | Names(g, e, k, i) && Names(g, e', l, i) ensures e == e' && k == l {
      assert Names(fs, e, if e == d then Before(f, k) else k, i);
      assert Names(fs, e', if e' == d then Before(f, l) else l, i);
    }
    forall i | i in g.nodes && i != 1 ensures Named(g, i) {
      assert Named(fs, i);
      var e: nat, k: nat :| Names(fs, e, k, i);
      var k' := if e == d && k > f then k - 1 else k;
      assert Names(g, e, k', i);
    }
  }

  predicate NonemptyDir(fs: Fs, i: nat) {
    IsDir(fs, i) && fs.nodes[i].entries != []
  }

  /** A removed directory that still named something leaves that node without a name. */
  lemma RemoveOrphans(fs: Fs, g: Fs, d: nat, f: nat, child: nat)
    requires TreeOk(fs) && NamesRemoved(fs, g, d, f, child)
    requires g.nodes.Keys == fs.nodes.Keys - {child}
    requires NonemptyDir(fs, child)
    ensures !AllNamed(g)
  {
    hide EntriesOk;
    var orphan := fs.nodes[child].entries[0].inum;
    assert Names(fs, child, 0, orphan);
    forall e: nat, k: nat ensures !Names(g, e, k, orphan) {
      assert Names(fs, e, if e == d then Before(f, k) else k, orphan) ==> e == child;
    }
    assert !Named(g, orphan);
    assert orphan in g.nodes && orphan != 1;
  }

  /** unlink keeps the tree exactly when it was not given a directory with entries: the check
      that the code leaves out. */
  lemma RemoveKeepsTree(fs: Fs, d: nat, name: Text)
    requires TreeOk(fs) && HasName(fs, d, name)
    ensures Target(fs, d, name) != d
    ensures TreeOk(RemoveChild(fs, d, name)) <==> !NonemptyDir(fs, Target(fs, d, name))
  {
    TargetIsChild(fs, d, name);
    var child := Target(fs, d, name);
    var f := FindName(fs.nodes[d].entries, name);
    var g := RemoveChild(fs, d, name);
    RemoveNames(fs, d, name);
    assert g.nodes.Keys == fs.nodes.Keys - {child};
    if NonemptyDir(fs, child) {
      hide EntriesOk, NamesGoDown, NamedOnce, AllNamed;
      RemoveOrphans(fs, g, d, f, child);
    } else {
      hide EntriesOk, NamesGoDown, NamedOnce, AllNamed;
      RemoveKeepsEntries(fs, d, name);
      RemoveKeepsNaming(fs, g, d, f, child);
    }
  }

  /** A tree on which unlink breaks the tree: a directory with one file in it, unlinked. */
  lemma UnlinkCanOrphan()
    ensures exists fs: Fs, name: Text ::
      TreeOk(fs) && HasName(fs, 1, name) && Target(fs, 1, name) != 1 && !TreeOk(RemoveChild(fs, 1, name))
  {
    var a, b: Text := [97], [98];
    EmptyIsTree();
    AddKeepsTree(Empty(), 1, a, Dir([]));
    var one := AddChild(Empty(), 1, a, Dir([]));
    AddKeepsTree(one, 2, b, Reg([]));
    var two := AddChild(one, 2, b, Reg([]));
    assert two.nodes[1].entries == [Dirent(a, 2)];
    assert HasName(two, 1, a) && Target(two, 1, a) == 2 && NonemptyDir(two, 2);
    RemoveKeepsTree(two, 1, a);
  }

  // ---- changing data

  lemma SetDataKeepsTree(fs: Fs, i: nat, data: seq<Byte>)
    requires TreeOk(fs) && IsData(fs, i)
    ensures TreeOk(SetData(fs, i, data))
  {
    var g := SetData(fs, i, data);
    assert forall d :: IsDir(g, d) ==> IsDir(fs, d) && g.nodes[d] == fs.nodes[d];
    forall d: nat, k: nat, j: nat ensures Names(g, d, k, j) <==> Names(fs, d, k, j) {}
    forall j | j in g.nodes && j != 1 ensures Named(g, j) {
      assert Named(fs, j);
      var e: nat, k: nat :| Names(fs, e, k, j);
      assert Names(g, e, k, j);
    }
  }

  // ---------------------------------------------------------------- paths

  /** The node a path from the root leads to. */
  function Resolve(fs: Fs, path: seq<Text>): Option<nat> {
    if path == [] then Some(1) else
      var d := Resolve(fs, path[..|path| - 1]);
      var name := path[|path| - 1];
      if d.Some? && HasName(fs, d.value, name) then Some(Target(fs, d.value, name)) else None
  }

  lemma EntryIsTarget(fs: Fs, d: nat, k: nat, i: nat)
    requires TreeOk(fs) && Names(fs, d, k, i)
    ensures var name := fs.nodes[d].entries[k].name;
            HasName(fs, d, name) && FindName(fs.nodes[d].entries, name) == k && Target(fs, d, name) == i
  {
    hide NamedOnce, NamesGoDown, AllNamed;
    var es := fs.nodes[d].entries;
    assert UniqueNames(es);
  }

  lemma {:induction false} PathExists(fs: Fs, i: nat) returns (path: seq<Text>)
    requires TreeOk(fs) && i in fs.nodes
    ensures Resolve(fs, path) == Some(i)
  {
    if i == 1 {
      path := [];
    } else {
      hide EntriesOk, NamedOnce;
      assert Named(fs, i);
      var d: nat, k: nat :| Names(fs, d, k, i);
      var prefix := PathExists(fs, d);
      EntryIsTarget(fs, d, k, i);
      path := prefix + [fs.nodes[d].entries[k].name];
      assert path[..|path| - 1] == prefix;
    }
  }

  /** The last step of a path: its directory, and the entry that names its end. */
  lemma LastStep(fs: Fs, p: seq<Text>, i: nat) returns (d: nat, k: nat)
    requires TreeOk(fs) && p != [] && Resolve(fs, p) == Some(i)
    ensures Resolve(fs, p[..|p| - 1]) == Some(d) && i != 1
    ensures Names(fs, d, k, i) && fs.nodes[d].entries[k].name == p[|p| - 1]
  {
    hide TreeOk;
    d := Resolve(fs, p[..|p| - 1]).value;
    k := FindName(fs.nodes[d].entries, p[|p| - 1]);
    TargetIsChild(fs, d, p[|p| - 1]);
  }

  lemma {:induction false} PathIsUnique(fs: Fs, p: seq<Text>, q: seq<Text>, i: nat)
    requires TreeOk(fs) && Resolve(fs, p) == Some(i) && Resolve(fs, q) == Some(i)
    ensures p == q
    decreases |p|
  {
    if p == [] && q == [] {
    } else if p == [] {
      var d, k := LastStep(fs, q, i);
    } else if q == [] {
      var d, k := LastStep(fs, p, i);
    } else {
      var d, k := LastStep(fs, p, i);
      var e, l := LastStep(fs, q, i);
      assert d == e && k == l by {
        hide EntriesOk, NamesGoDown, AllNamed, Resolve;
      }
      hide TreeOk, Resolve;
      PathIsUnique(fs, p[..|p| - 1], q[..|q| - 1], d);
      assert p == p[..|p| - 1] + [p[|p| - 1]] && q == q[..|q| - 1] + [q[|q| - 1]];
    }
  }

  /** Every live node is reached from the root by exactly one path of names. */
  lemma EveryNodeHasOnePath(fs: Fs, i: nat)
    requires TreeOk(fs) && i in fs.nodes
    ensures exists p :: Resolve(fs, p) == Some(i) && forall q :: Resolve(fs, q) == Some(i) ==> q == p
  {
    hide TreeOk;
    var p := PathExists(fs, i);
    forall q | Resolve(fs, q) == Some(i) ensures q == p {
      PathIsUnique(fs, q, p, i);
    }
  }
}
