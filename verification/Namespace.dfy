/** Directories as finite maps. One step further from the disk than the tree: each live directory
    is a map from names to numbers, lists and texts are forgotten, and every run of the client
    agrees with that. */
module Namespace {
  import opened DirText
  import opened ByteRange
  import opened FileSystem
  import opened ExtentLayer
  import opened ClientLayer
  import opened Runs

  /** The live directories and the last number handed out. */
  datatype Directories = Directories(dirs: map<nat, map<Text, nat>>, last: nat)

  function NamesOf(fs: Fs): Directories {
    Directories(map d | d in fs.nodes && fs.nodes[d].Dir? :: Bindings(fs.nodes[d].entries), fs.last)
  }

  predicate IsBound(ns: Directories, d: nat, name: Text) {
    d in ns.dirs && name in ns.dirs[d]
  }

  function Bind(ns: Directories, d: nat, name: Text, dirs: map<nat, map<Text, nat>>): Directories {
    if d !in ns.dirs || name in ns.dirs[d] then ns
    else
      var i: nat := ns.last + 1;
      var names: map<Text, nat> := ns.dirs[d][name := i];
      Directories(dirs[d := names], i)
  }

  function Unbind(ns: Directories, d: nat, name: Text): Directories {
    if !IsBound(ns, d, name) then ns
    else ns.(dirs := (ns.dirs - {ns.dirs[d][name]})[d := ns.dirs[d] - {name}])
  }

  /** The maps after an operation: mkdir also makes a new, empty one, and a removed directory takes
      its own with it. */
  function NamesAfter(ns: Directories, op: Op): Directories {
    match op
    case OpCreate(p, name) => Bind(ns, Masked(p), name, ns.dirs)
    case OpMkdir(p, name) => Bind(ns, Masked(p), name, ns.dirs[ns.last + 1 := map[]])
    case OpSymlink(p, link, name) => Bind(ns, Masked(p), name, ns.dirs)
    case OpUnlink(p, name) => Unbind(ns, Masked(p), name)
    case _ => ns
  }

  predicate IsNaming(op: Op) {
    op.OpCreate? || op.OpMkdir? || op.OpSymlink? || op.OpUnlink? || op.OpLookup?
  }

  /** The answer to an operation on names, from the maps alone. */
  function NamesAnswer(ns: Directories, op: Op): Reply
    requires IsNaming(op)
  {
    var d := Masked(op.parent);
    var bound := IsBound(ns, d, op.name);
    if op.OpUnlink? then Plain(if bound then OK else NOENT)
    else if op.OpLookup? then Number(OK, if bound then ns.dirs[d][op.name] else 0)
    else if bound then Number(EXIST, ns.dirs[d][op.name])
    else Number(OK, ns.last + 1)
  }

  function NamesEnd(ns: Directories, ops: seq<Op>): Directories
    decreases |ops|
  {
    if ops == [] then ns else NamesEnd(NamesAfter(ns, ops[0]), ops[1..])
  }

  // ---------------------------------------------------------------- one operation

  lemma HasNameIsBound(fs: Fs, d: nat, name: Text)
    ensures HasName(fs, d, name) <==> IsBound(NamesOf(fs), d, name)
    ensures HasName(fs, d, name) ==> Target(fs, d, name) == NamesOf(fs).dirs[d][name]
  {
    if IsDir(fs, d) {
      LookupIsBinding(fs.nodes[d].entries, name);
    }
  }

  lemma NoEntriesNoBindings()
    ensures Bindings([]) == map[]
  {
    forall name ensures name !in Bindings([]) {
      LookupIsBinding([], name);
    }
  }

  lemma AddBinds(fs: Fs, d: nat, name: Text, n: Node)
    requires TreeOk(fs) && IsDir(fs, d) && !HasName(fs, d, name)
    requires n.Dir? ==> n.entries == []
    ensures var ns := NamesOf(fs);
            NamesOf(AddChild(fs, d, name, n)) == Bind(ns, d, name, if n.Dir? then ns.dirs[ns.last + 1 := map[]] else ns.dirs)
  {
    hide EntriesOk, NamesGoDown, NamedOnce, AllNamed, Bindings;
    HasNameIsBound(fs, d, name);
    AppendBinds(fs.nodes[d].entries, Dirent(name, fs.last + 1));
    NoEntriesNoBindings();
    var g := AddChild(fs, d, name, n);
    var ns := NamesOf(fs);
    var made := Bind(ns, d, name, if n.Dir? then ns.dirs[ns.last + 1 := map[]] else ns.dirs);
    assert NamesOf(g).dirs == made.dirs;
  }

  lemma RemoveUnbindsNode(fs: Fs, d: nat, name: Text)
    requires TreeOk(fs) && HasName(fs, d, name) && Target(fs, d, name) != d
    ensures NamesOf(RemoveChild(fs, d, name)) == Unbind(NamesOf(fs), d, name)
  {
    hide NamesGoDown, NamedOnce, AllNamed, Bindings, RemoveName;
    HasNameIsBound(fs, d, name);
    RemoveUnbinds(fs.nodes[d].entries, name);
    var ns := NamesOf(fs);
    assert NamesOf(RemoveChild(fs, d, name)).dirs == Unbind(ns, d, name).dirs;
  }

  lemma AddRefines(fs: Fs, d: nat, name: Text, n: Node)
    requires TreeOk(fs) && IsDir(fs, d) && (n.Dir? ==> n.entries == [])
    ensures var ns := NamesOf(fs);
            && (HasName(fs, d, name) <==> IsBound(ns, d, name))
            && (HasName(fs, d, name) ==> Target(fs, d, name) == ns.dirs[d][name])
            && ns.last == fs.last && d in ns.dirs
            && NamesOf(AddIfFree(fs, d, name, n)) == Bind(ns, d, name, if n.Dir? then ns.dirs[ns.last + 1 := map[]] else ns.dirs)
  {
    hide TreeOk, AddChild;
    HasNameIsBound(fs, d, name);
    if !HasName(fs, d, name) {
      AddBinds(fs, d, name, n);
    }
  }

  lemma DataHasNoNames(fs: Fs, i: nat, data: Text)
    requires IsData(fs, i)
    ensures NamesOf(SetData(fs, i, data)) == NamesOf(fs)
  {
    assert NamesOf(SetData(fs, i, data)).dirs == NamesOf(fs).dirs;
  }

  /** One allowed operation does to the maps, and answers from them, what the finite maps say. */
  lemma StepRefinesNames(fs: Fs, op: Op)
    requires TreeOk(fs) && Allowed(fs, op)
    ensures NamesOf(After(fs, op)) == NamesAfter(NamesOf(fs), op)
    ensures IsNaming(op) ==> Answer(fs, op) == NamesAnswer(NamesOf(fs), op)
  {
    hide TreeOk, Fits, NamesOf, AddChild, RemoveChild, WriteAt, Resize;
    match op
    case OpCreate(p, name) => AddRefines(fs, Masked(p), name, Reg([]));
    case OpMkdir(p, name) => AddRefines(fs, Masked(p), name, Dir([]));
    case OpSymlink(p, link, name) => AddRefines(fs, Masked(p), name, Link(link));
    case OpUnlink(p, name) =>
      HasNameIsBound(fs, Masked(p), name);
      if HasName(fs, Masked(p), name) {
        TargetIsChild(fs, Masked(p), name);
        RemoveUnbindsNode(fs, Masked(p), name);
      }
    case OpLookup(p, name) => HasNameIsBound(fs, Masked(p), name);
    case OpWrite(i, off, data) => DataHasNoNames(fs, Masked(i), WriteAt(Data(fs.nodes[Masked(i)]), off, data));
    case OpSetAttr(i, size) => DataHasNoNames(fs, Masked(i), Resize(Data(fs.nodes[Masked(i)]), size));
    case _ =>
  }

  // ---------------------------------------------------------------- runs

  /** After any permitted run the directories are the maps that the operations on names, taken
      alone, make of the first ones. */
  lemma {:induction false} RunRefinesNames(fs: Fs, ops: seq<Op>)
    requires TreeOk(fs) && Permitted(fs, ops)
    ensures NamesOf(EndOf(fs, ops)) == NamesEnd(NamesOf(fs), ops)
    decreases |ops|
  {
    if ops == [] {
    } else {
      hide TreeOk, Allowed, After, NamesOf, NamesAfter;
      AfterIsTree(fs, ops[0]);
      StepRefinesNames(fs, ops[0]);
      RunRefinesNames(After(fs, ops[0]), ops[1..]);
    }
  }

  /** And every answer of the run to an operation on names can be read off the maps. */
  lemma {:induction false} AnswersFromNames(fs: Fs, ops: seq<Op>, k: nat)
    requires TreeOk(fs) && Permitted(fs, ops) && k < |ops| && IsNaming(ops[k])
    ensures AnswersOf(fs, ops)[k] == NamesAnswer(NamesEnd(NamesOf(fs), ops[..k]), ops[k])
    decreases |ops|
  {
    hide TreeOk, Allowed, After, Answer, NamesOf, NamesAfter, NamesAnswer;
    AfterIsTree(fs, ops[0]);
    StepRefinesNames(fs, ops[0]);
    if k == 0 {
      assert ops[..0] == [];
    } else {
      AnswersFromNames(After(fs, ops[0]), ops[1..], k - 1);
      assert ops[..k][1..] == ops[1..][..k - 1] && ops[1..][k - 1] == ops[k];
    }
  }
}
