/** Runs of the extent server against a plain map from ids to files and their times. */
module ExtentRuns {
  import opened Bytes
  import opened Geometry
  import opened Layout
  import opened Ownership
  import opened Transfer
  import opened ExtentLayer

  datatype Stamps = Stamps(atime: U32, mtime: U32, ctime: U32)

  /** All live files, their times, and the last id handed out. */
  datatype Extents = Extents(files: map<nat, File>, stamps: map<nat, Stamps>, last: nat)

  datatype Op =
    | Create(kind: U16)
    | Put(id: nat, buf: seq<Byte>)
    | Get(id: nat)
    | GetAttr(id: nat)
    | Remove(id: nat)

  datatype Reply = Id(id: nat) | Bytes(buf: seq<Byte>) | Attributes(attr: Attr) | Done

  /** Every live id has times and is at most the last one handed out. */
  predicate Numbered(x: Extents) {
    x.stamps.Keys == x.files.Keys && forall i :: i in x.files ==> i <= x.last
  }

  /** Ids other than getattr's are live, numbers stay clear of the data region, and what is put fits. */
  predicate Allowed(x: Extents, op: Op) {
    match op
    case Create(kind) => x.last + 1 < INUM_LIMIT
    case Put(id, buf) =>
      Masked(id) in x.files && |buf| <= MAX_SIZE
      && Demand(x.files[Masked(id) := File(x.files[Masked(id)].kind, buf)]) <= DATA_BLOCKS
    case Get(id) => Masked(id) in x.files
    case GetAttr(id) => true
    case Remove(id) => Masked(id) in x.files
  }

  /** What a create of the given type under the given id brings into being. */
  predicate Makes(id: nat, kind: U16) {
    id < INODE_NUM && kind != 0
  }

  /** The map after an operation at time now. */
  function After(x: Extents, op: Op, now: U32): Extents
    requires Numbered(x) && Allowed(x, op)
  {
    match op
    case Create(kind) =>
      var id := x.last + 1;
      if Makes(id, kind) then Extents(x.files[id := File(kind, [])], x.stamps[id := Stamps(now, now, now)], id)
      else x.(last := id)
    case Put(id, buf) =>
      var i := Masked(id);
      x.(files := x.files[i := File(x.files[i].kind, buf)],
         stamps := x.stamps[i := x.stamps[i].(mtime := now, ctime := now)])
    case Get(id) =>
      var i := Masked(id);
      x.(stamps := x.stamps[i := x.stamps[i].(atime := now)])
    case GetAttr(id) => x
    case Remove(id) => x.(files := x.files - {Masked(id)}, stamps := x.stamps - {Masked(id)})
  }

  /** A length as the attribute's 32 bits hold it. */
  function AsSize(data: seq<Byte>): U32 {
    |data| % 0x1_0000_0000
  }

  /** The map's answer; an id that is not in the map has all attributes zero. */
  function Answer(x: Extents, op: Op): Reply
    requires Numbered(x) && Allowed(x, op)
  {
    match op
    case Create(kind) => Id(x.last + 1)
    case Put(id, buf) => Done
    case Get(id) => Bytes(x.files[Masked(id)].data)
    case GetAttr(id) =>
      var i := Masked(id);
      if i in x.files then
        Attributes(Attr(x.files[i].kind, x.stamps[i].atime, x.stamps[i].mtime, x.stamps[i].ctime, AsSize(x.files[i].data)))
      else Attributes(NO_ATTR)
    case Remove(id) => Done
  }

  // ---------------------------------------------------------------- runs of the map

  /** Every operation of the run is allowed when its turn comes. */
  predicate Permitted(x: Extents, ops: seq<Op>, times: seq<U32>)
    requires |times| == |ops|
    decreases |ops|
  {
    ops == [] ||
    (Numbered(x) && Allowed(x, ops[0]) && Permitted(After(x, ops[0], times[0]), ops[1..], times[1..]))
  }

  function EndOf(x: Extents, ops: seq<Op>, times: seq<U32>): Extents
    requires |times| == |ops| && Permitted(x, ops, times)
    decreases |ops|
  {
    if ops == [] then x else EndOf(After(x, ops[0], times[0]), ops[1..], times[1..])
  }

  function AnswersOf(x: Extents, ops: seq<Op>, times: seq<U32>): (replies: seq<Reply>)
    requires |times| == |ops| && Permitted(x, ops, times)
    ensures |replies| == |ops|
    decreases |ops|
  {
    if ops == [] then []
    else [Answer(x, ops[0])] + AnswersOf(After(x, ops[0], times[0]), ops[1..], times[1..])
  }

  lemma AfterIsNumbered(x: Extents, op: Op, now: U32)
    requires Numbered(x) && Allowed(x, op)
    ensures Numbered(After(x, op, now))
  {}

  lemma {:induction false} EndIsNumbered(x: Extents, ops: seq<Op>, times: seq<U32>)
    requires |times| == |ops| && Numbered(x) && Permitted(x, ops, times)
    ensures Numbered(EndOf(x, ops, times))
    decreases |ops|
  {
    if ops == [] {
    } else {
      AfterIsNumbered(x, ops[0], times[0]);
      EndIsNumbered(After(x, ops[0], times[0]), ops[1..], times[1..]);
    }
  }

  lemma {:induction false} RunAppend(x: Extents, ops: seq<Op>, times: seq<U32>, op: Op, now: U32)
    requires |times| == |ops| && Numbered(x) && Permitted(x, ops + [op], times + [now])
    ensures Permitted(x, ops, times) && Numbered(EndOf(x, ops, times)) && Allowed(EndOf(x, ops, times), op)
    ensures AnswersOf(x, ops + [op], times + [now]) == AnswersOf(x, ops, times) + [Answer(EndOf(x, ops, times), op)]
    decreases |ops|
  {
    hide Numbered, Allowed, After, Answer;
    if ops == [] {
      assert ops + [op] == [op] && times + [now] == [now];
    } else {
      assert (ops + [op])[1..] == ops[1..] + [op] && (times + [now])[1..] == times[1..] + [now];
      AfterIsNumbered(x, ops[0], times[0]);
      RunAppend(After(x, ops[0], times[0]), ops[1..], times[1..], op, now);
    }
  }

  // ---------------------------------------------------------------- what a run decides, from its operations alone

  /** How many ids a run hands out. */
  function Creates(ops: seq<Op>): nat {
    if ops == [] then 0 else (if ops[0].Create? then 1 else 0) + Creates(ops[1..])
  }

  /** Position of the n-th create of a run, counted from 1; the length of the run if there are fewer. */
  function CreateAt(ops: seq<Op>, n: nat): (k: nat)
    requires n > 0
    ensures k <= |ops| && (k < |ops| ==> ops[k].Create?)
    ensures k < |ops| <==> n <= Creates(ops)
  {
    if ops == [] then 0
    else if ops[0].Create? && n == 1 then 0
    else 1 + CreateAt(ops[1..], if ops[0].Create? then n - 1 else n)
  }

  predicate Removed(ops: seq<Op>, i: nat) {
    exists k :: 0 <= k < |ops| && ops[k].Remove? && Masked(ops[k].id) == i
  }

  /** The data last put to i, or before. */
  function LastPut(ops: seq<Op>, i: nat, before: seq<Byte>): seq<Byte> {
    if ops == [] then before
    else LastPut(ops[1..], i, if ops[0].Put? && Masked(ops[0].id) == i then ops[0].buf else before)
  }

  /** The time of the last get of i, or before. */
  function LastGetTime(ops: seq<Op>, times: seq<U32>, i: nat, before: U32): U32
    requires |times| == |ops|
  {
    if ops == [] then before
    else LastGetTime(ops[1..], times[1..], i, if ops[0].Get? && Masked(ops[0].id) == i then times[0] else before)
  }

  /** The time of the last put to i, or before. */
  function LastPutTime(ops: seq<Op>, times: seq<U32>, i: nat, before: U32): U32
    requires |times| == |ops|
  {
    if ops == [] then before
    else LastPutTime(ops[1..], times[1..], i, if ops[0].Put? && Masked(ops[0].id) == i then times[0] else before)
  }

  /** What id i starts the run with: what it has in x, or what the create that hands it out gives. */
  predicate Begins(x: Extents, ops: seq<Op>, times: seq<U32>, i: nat, f: File, s: Stamps)
    requires |times| == |ops|
  {
    if i in x.files then i in x.stamps && f == x.files[i] && s == x.stamps[i]
    else
      && i > x.last
      && var k := CreateAt(ops, i - x.last);
         k < |ops| && f == File(ops[k].kind, []) && s == Stamps(times[k], times[k], times[k])
  }

  lemma {:induction false} LastIdHandedOut(x: Extents, ops: seq<Op>, times: seq<U32>)
    requires |times| == |ops| && Permitted(x, ops, times)
    ensures EndOf(x, ops, times).last == x.last + Creates(ops)
    decreases |ops|
  {
    if ops == [] {
    } else {
      LastIdHandedOut(After(x, ops[0], times[0]), ops[1..], times[1..]);
    }
  }

  /** An id that was handed out and removed is never in use again. */
  lemma {:induction false} DeadStaysDead(x: Extents, ops: seq<Op>, times: seq<U32>)
    requires |times| == |ops| && Permitted(x, ops, times)
    ensures forall i :: i <= x.last && i !in x.files ==> i !in EndOf(x, ops, times).files
    decreases |ops|
  {
    if ops == [] {
    } else {
      DeadStaysDead(After(x, ops[0], times[0]), ops[1..], times[1..]);
    }
  }

  /** At the end of any run every file, whether it was there at the start or was made on the way,
      has the type it began with, the data last put under its id, the time of its last get as
      access time and the time of its last put as both other times; what was never put or got
      keeps what it began with, nothing at all and the time of the create for a new one. */
  lemma {:induction false} LastPutWins(x: Extents, ops: seq<Op>, times: seq<U32>, i: nat) returns (f: File, s: Stamps)
    requires |times| == |ops| && Numbered(x) && Permitted(x, ops, times)
    requires i in EndOf(x, ops, times).files
    ensures Begins(x, ops, times, i, f, s)
    ensures EndOf(x, ops, times).files[i] == File(f.kind, LastPut(ops, i, f.data))
    ensures i in EndOf(x, ops, times).stamps
    ensures EndOf(x, ops, times).stamps[i] ==
      Stamps(LastGetTime(ops, times, i, s.atime), LastPutTime(ops, times, i, s.mtime), LastPutTime(ops, times, i, s.ctime))
    decreases |ops|
  {
    if ops == [] {
      f, s := x.files[i], x.stamps[i];
    } else {
      var next := After(x, ops[0], times[0]);
      AfterIsNumbered(x, ops[0], times[0]);
      DeadStaysDead(x, ops, times);
      DeadStaysDead(next, ops[1..], times[1..]);
      f, s := LastPutWins(next, ops[1..], times[1..], i);
      if i in x.files {
        f, s := x.files[i], x.stamps[i];
      }
    }
  }

  lemma RemovedSplit(ops: seq<Op>, i: nat)
    requires ops != []
    ensures Removed(ops, i) <==> (ops[0].Remove? && Masked(ops[0].id) == i) || Removed(ops[1..], i)
  {
    if Removed(ops[1..], i) {
      var k :| 0 <= k < |ops[1..]| && ops[1..][k].Remove? && Masked(ops[1..][k].id) == i;
      assert ops[k + 1] == ops[1..][k];
    }
    if Removed(ops, i) {
      var k :| 0 <= k < |ops| && ops[k].Remove? && Masked(ops[k].id) == i;
      assert k > 0 ==> ops[1..][k - 1] == ops[k];
    }
  }

  /** Only a live id can be removed. */
  lemma {:induction false} RemovedWasLive(x: Extents, ops: seq<Op>, times: seq<U32>, i: nat)
    requires |times| == |ops| && Numbered(x) && Permitted(x, ops, times)
    requires i <= x.last && i !in x.files
    ensures !Removed(ops, i)
    decreases |ops|
  {
    if ops == [] {
    } else {
      AfterIsNumbered(x, ops[0], times[0]);
      RemovedSplit(ops, i);
      RemovedWasLive(After(x, ops[0], times[0]), ops[1..], times[1..], i);
    }
  }

  /** An id is live after a run exactly when it was live or was handed out for a file, and the run
      did not remove it. */
  lemma {:induction false} LiveIff(x: Extents, ops: seq<Op>, times: seq<U32>, i: nat)
    requires |times| == |ops| && Numbered(x) && Permitted(x, ops, times)
    ensures i in EndOf(x, ops, times).files <==>
      && !Removed(ops, i)
      && (i in x.files
          || (x.last < i <= x.last + Creates(ops) && Makes(i, ops[CreateAt(ops, i - x.last)].kind)))
    decreases |ops|
  {
    if ops == [] {
    } else {
      var next := After(x, ops[0], times[0]);
      AfterIsNumbered(x, ops[0], times[0]);
      LiveIff(next, ops[1..], times[1..], i);
      RemovedSplit(ops, i);
      if i <= next.last && i !in next.files {
        RemovedWasLive(next, ops[1..], times[1..], i);
      }
    }
  }

  // ---------------------------------------------------------------- what the caller is told

  /** The reply to an operation after a run. */
  function LastReply(x: Extents, ops: seq<Op>, times: seq<U32>, op: Op, now: U32): Reply
    requires |times| == |ops| && Permitted(x, ops + [op], times + [now])
  {
    AnswersOf(x, ops + [op], times + [now])[|ops|]
  }

  /** create answers ids in sequence, whatever happened to the earlier ones. */
  lemma CreateReply(x: Extents, ops: seq<Op>, times: seq<U32>, kind: U16, now: U32)
    requires |times| == |ops| && Numbered(x) && Permitted(x, ops + [Create(kind)], times + [now])
    ensures LastReply(x, ops, times, Create(kind), now) == Id(x.last + Creates(ops) + 1)
  {
    RunAppend(x, ops, times, Create(kind), now);
    LastIdHandedOut(x, ops, times);
  }

  /** get answers what was last put. */
  lemma GetReply(x: Extents, ops: seq<Op>, times: seq<U32>, id: nat, now: U32) returns (f: File, s: Stamps)
    requires |times| == |ops| && Numbered(x) && Permitted(x, ops + [Get(id)], times + [now])
    ensures Begins(x, ops, times, Masked(id), f, s)
    ensures LastReply(x, ops, times, Get(id), now) == Bytes(LastPut(ops, Masked(id), f.data))
  {
    RunAppend(x, ops, times, Get(id), now);
    f, s := LastPutWins(x, ops, times, Masked(id));
  }

  /** getattr of a live id answers its type, the time of the last get, twice that of the last put,
      and the length of what was put then. */
  lemma GetAttrReply(x: Extents, ops: seq<Op>, times: seq<U32>, id: nat, now: U32) returns (f: File, s: Stamps)
    requires |times| == |ops| && Numbered(x) && Permitted(x, ops + [GetAttr(id)], times + [now])
    requires Permitted(x, ops, times) ==> Masked(id) in EndOf(x, ops, times).files
    ensures Begins(x, ops, times, Masked(id), f, s)
    ensures var i := Masked(id);
            LastReply(x, ops, times, GetAttr(id), now) == Attributes(Attr(
              f.kind,
              LastGetTime(ops, times, i, s.atime),
              LastPutTime(ops, times, i, s.mtime),
              LastPutTime(ops, times, i, s.ctime),
              AsSize(LastPut(ops, i, f.data))))
  {
    RunAppend(x, ops, times, GetAttr(id), now);
    f, s := LastPutWins(x, ops, times, Masked(id));
  }

  /** getattr of any other id answers zeros; put and remove answer nothing but that they are done. */
  lemma OtherReplies(x: Extents, ops: seq<Op>, times: seq<U32>, op: Op, now: U32)
    requires |times| == |ops| && Numbered(x) && Permitted(x, ops + [op], times + [now])
    ensures Permitted(x, ops, times)
    ensures op.GetAttr? && Masked(op.id) !in EndOf(x, ops, times).files ==>
      LastReply(x, ops, times, op, now) == Attributes(Attr(0, 0, 0, 0, 0))
    ensures op.Put? || op.Remove? ==> LastReply(x, ops, times, op, now) == Done
  {
    RunAppend(x, ops, times, op, now);
  }

  // ---------------------------------------------------------------- the server

  ghost function StampsAt(d: Image, i: nat): Stamps
    requires i < INODE_NUM
  {
    Stamps(InodeAt(d, i).atime, InodeAt(d, i).mtime, InodeAt(d, i).ctime)
  }

  ghost function StampsOf(d: Image): map<nat, Stamps> {
    map i: nat | i < INODE_NUM && Live(d, i) :: StampsAt(d, i)
  }

  ghost function State(es: ExtentServer): Extents
    requires es.Valid()
    reads es.im, es.im.bm.blocks
  {
    Extents(es.Files(), StampsOf(es.im.bm.Disk()), es.im.lastInum)
  }

  lemma StoreKeys(d: Image)
    ensures Store(d).Keys == StampsOf(d).Keys
    ensures forall i :: i in Store(d) ==> i < INODE_NUM && Live(d, i) && StampsOf(d)[i] == StampsAt(d, i)
  {
    hide DecodeInode, FileAt;
  }

  lemma StateIsNumbered(es: ExtentServer)
    requires es.Valid()
    ensures Numbered(State(es))
  {
    hide Store, StampsOf;
    SoundNumbers(es.im.bm.Disk(), es.im.lastInum);
    StoreKeys(es.im.bm.Disk());
  }

  /** Where no other inode changed, the other times did not. */
  lemma StampsUpdated(d: Image, e: Image, i: nat)
    requires OthersKept(d, e, i)
    ensures i >= INODE_NUM ==> StampsOf(e) == StampsOf(d)
    ensures i < INODE_NUM ==>
      StampsOf(e) == if Live(e, i) then StampsOf(d)[i := StampsAt(e, i)] else StampsOf(d) - {i}
  {
    hide DecodeInode;
    assert forall j: nat :: j < INODE_NUM && j != i ==> InodeAt(e, j) == InodeAt(d, j);
  }

  method Perform(es: ExtentServer, op: Op, now: U32) returns (reply: Reply)
    requires es.Valid() && Numbered(State(es)) && Allowed(State(es), op)
    modifies es.im, es.im.bm.blocks
    ensures es.Valid() && State(es) == After(old(State(es)), op, now)
    ensures reply == Answer(old(State(es)), op)
  {
    hide Sound, Demand, InodeAt, Store, StampsOf, SameOutside, OwnedBy;
    ghost var d := es.im.bm.Disk();
    StoreKeys(d);
    reply := Done;
    match op {
      case Create(kind) =>
        var id := es.Create(kind, now);
        reply := Id(id);
        OnlyBlockKeepsInodes(d, es.im.bm.Disk(), id);
        StampsUpdated(d, es.im.bm.Disk(), id);
        assert StampsOf(d) - {id} == StampsOf(d);
      case Put(id, buf) =>
        es.Put(id, buf, now);
        StampsUpdated(d, es.im.bm.Disk(), Masked(id));
        StoreKeys(es.im.bm.Disk());
      case Get(id) =>
        var buf := es.Get(id, now);
        reply := Bytes(buf);
        OnlyBlockKeepsInodes(d, es.im.bm.Disk(), Masked(id));
        StampsUpdated(d, es.im.bm.Disk(), Masked(id));
        StoreKeys(es.im.bm.Disk());
      case GetAttr(id) =>
        var a := es.GetAttr(id);
        reply := Attributes(a);
      case Remove(id) =>
        es.Remove(id);
        StampsUpdated(d, es.im.bm.Disk(), Masked(id));
    }
  }

  /** Any permitted run on the disk answers as the map does, at whatever times it happens. */
  method Run(es: ExtentServer, ops: seq<Op>, times: seq<U32>) returns (replies: seq<Reply>)
    requires es.Valid() && |times| == |ops| && Permitted(State(es), ops, times)
    modifies es.im, es.im.bm.blocks
    ensures es.Valid() && State(es) == EndOf(old(State(es)), ops, times)
    ensures replies == AnswersOf(old(State(es)), ops, times)
  {
    hide Sound, Store, Demand, Allowed, After, Answer, Numbered;
    replies := [];
    ghost var start := State(es);
    assert ops[0..] == ops && times[0..] == times;
    for k := 0 to |ops|
      invariant es.Valid() && Permitted(State(es), ops[k..], times[k..])
      invariant EndOf(State(es), ops[k..], times[k..]) == EndOf(start, ops, times)
      invariant replies + AnswersOf(State(es), ops[k..], times[k..]) == AnswersOf(start, ops, times)
    {
      assert ops[k..][0] == ops[k] && ops[k..][1..] == ops[k + 1..];
      assert times[k..][0] == times[k] && times[k..][1..] == times[k + 1..];
      var reply := Perform(es, ops[k], times[k]);
      replies := replies + [reply];
    }
  }
}
