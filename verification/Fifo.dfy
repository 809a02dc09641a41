/** The bounded blocking queue (class fifo) as a monitor. Between acquiring the mutex and releasing
    it, by returning or by waiting on a condition, a thread runs alone, so each such stretch is one
    step. Waiting and signalling follow pthread_cond_wait and pthread_cond_signal of POSIX.1-2017:
    a signal unblocks at least one waiting thread if there is any, a thread may also be unblocked
    for no reason, and an unblocked thread has to acquire the mutex again before it goes on, so
    that others can get in first. */
module Fifo {

  type Thread = nat

  /** Where a thread stands outside the mutex. */
  datatype Phase<T> =
    | Idle
    | WaitSpace(item: T)    // blocked in enq on has_space_c_
    | WaitItem              // blocked in deq on non_empty_c_
    | WokenSpace(item: T)   // unblocked, not yet back in enq's loop
    | WokenItem             // unblocked, not yet back in deq's loop

  /** The limit, the queue and its threads. */
  datatype State<T> = State(max: nat, q: seq<T>, phase: map<Thread, Phase<T>>)

  /** How a stretch under the mutex ends: enq or deq returns, or the thread waits. */
  datatype Result<T> = Returned(ok: bool) | Got(item: T) | Blocked | Nothing

  // ---------------------------------------------------------------- waiting threads

  function SpaceWaiters<T>(s: State<T>): set<Thread> {
    set t | t in s.phase && s.phase[t].WaitSpace?
  }

  function ItemWaiters<T>(s: State<T>): set<Thread> {
    set t | t in s.phase && s.phase[t].WaitItem?
  }

  function SpaceWoken<T>(s: State<T>): set<Thread> {
    set t | t in s.phase && s.phase[t].WokenSpace?
  }

  function ItemWoken<T>(s: State<T>): set<Thread> {
    set t | t in s.phase && s.phase[t].WokenItem?
  }

  /** What a signal may unblock: waiting threads, and at least one if there is one. */
  predicate Wakes(waiters: set<Thread>, lucky: set<Thread>) {
    lucky <= waiters && (waiters != {} ==> lucky != {})
  }

  function Unblocked<T>(p: Phase<T>): Phase<T> {
    match p
    case WaitSpace(x) => WokenSpace(x)
    case WaitItem => WokenItem
    case _ => p
  }

  function Unblock<T>(s: State<T>, lucky: set<Thread>): State<T> {
    s.(phase := map t | t in s.phase :: if t in lucky then Unblocked(s.phase[t]) else s.phase[t])
  }

  // ---------------------------------------------------------------- steps

  function Start<T>(max: nat, threads: set<Thread>): State<T> {
    State(max, [], map t | t in threads :: Idle)
  }

  predicate HasSpace<T>(s: State<T>) {
    s.max == 0 || |s.q| < s.max
  }

  /** t starts enq(e), or comes back to its loop after a wait. */
  predicate MayEnq<T(==)>(s: State<T>, t: Thread, e: T, blocking: bool) {
    t in s.phase && (s.phase[t] == Idle || (s.phase[t] == WokenSpace(e) && blocking))
  }

  predicate MayDeq<T>(s: State<T>, t: Thread) {
    t in s.phase && (s.phase[t].Idle? || s.phase[t].WokenItem?)
  }

  /** What the signal of a stretch of enq unblocks; nothing when it does not signal. */
  predicate EnqWakes<T>(s: State<T>, lucky: set<Thread>) {
    if HasSpace(s) then Wakes(ItemWaiters(s), lucky) else lucky == {}
  }

  predicate DeqWakes<T(==)>(s: State<T>, lucky: set<Thread>) {
    if s.q != [] && s.max != 0 && |s.q| - 1 < s.max then Wakes(SpaceWaiters(s), lucky) else lucky == {}
  }

  function AfterEnq<T>(s: State<T>, t: Thread, e: T, blocking: bool, lucky: set<Thread>): State<T> {
    if HasSpace(s) then Unblock(s.(q := s.q + [e], phase := s.phase[t := Idle]), lucky)
    else if blocking then s.(phase := s.phase[t := WaitSpace(e)])
    else s
  }

  function AfterDeq<T>(s: State<T>, t: Thread, lucky: set<Thread>): State<T> {
    if s.q == [] then s.(phase := s.phase[t := WaitItem])
    else
      var r := s.(q := s.q[1..], phase := s.phase[t := Idle]);
      if r.max != 0 && |r.q| < r.max then Unblock(r, lucky) else r
  }

  function EnqReply<T>(s: State<T>, blocking: bool): Result<T> {
    if HasSpace(s) then Returned(true) else if blocking then Blocked else Returned(false)
  }

  function DeqReply<T>(s: State<T>): Result<T> {
    if s.q == [] then Blocked else Got(s.q[0])
  }

  /** lucky are the threads the event unblocks, by a signal or for no reason. */
  datatype Event<T> =
    | EvEnq(t: Thread, e: T, blocking: bool, lucky: set<Thread>)
    | EvDeq(t: Thread, lucky: set<Thread>)
    | EvSpurious(lucky: set<Thread>)

  predicate Enabled<T(==)>(s: State<T>, ev: Event<T>) {
    match ev
    case EvEnq(t, e, blocking, lucky) => MayEnq(s, t, e, blocking) && EnqWakes(s, lucky)
    case EvDeq(t, lucky) => MayDeq(s, t) && DeqWakes(s, lucky)
    case EvSpurious(lucky) => lucky <= SpaceWaiters(s) + ItemWaiters(s)
  }

  function Step<T>(s: State<T>, ev: Event<T>): State<T> {
    match ev
    case EvEnq(t, e, blocking, lucky) => AfterEnq(s, t, e, blocking, lucky)
    case EvDeq(t, lucky) => AfterDeq(s, t, lucky)
    case EvSpurious(lucky) => Unblock(s, lucky)
  }

  function Reply<T>(s: State<T>, ev: Event<T>): Result<T> {
    match ev
    case EvEnq(t, e, blocking, lucky) => EnqReply(s, blocking)
    case EvDeq(t, lucky) => DeqReply(s)
    case EvSpurious(lucky) => Nothing
  }

  // ---------------------------------------------------------------- the invariant

  predicate WithinLimit<T>(s: State<T>) {
    s.max > 0 ==> |s.q| <= s.max
  }

  /** A thread is still waiting for an item only if every item has a woken thread to fetch it. */
  predicate NoLostItem<T>(s: State<T>) {
    ItemWaiters(s) != {} ==> |s.q| <= |ItemWoken(s)|
  }

  /** A thread is still waiting for space only if every free place has a woken thread to fill it. */
  predicate NoLostSpace<T>(s: State<T>) {
    SpaceWaiters(s) != {} ==> s.max > 0 && s.max - |s.q| <= |SpaceWoken(s)|
  }

  predicate Sound<T>(s: State<T>) {
    WithinLimit(s) && NoLostItem(s) && NoLostSpace(s)
  }

  lemma SizeAtMost<U>(a: set<U>, b: set<U>)
    requires a <= b
    ensures |a| <= |b|
  {
    assert b == a + (b - a);
  }

  lemma SizeGrows<U>(a: set<U>, more: set<U>, b: set<U>)
    requires a !! more && more != {} && a + more <= b
    ensures |a| + 1 <= |b|
  {
    SizeAtMost(a + more, b);
    var x :| x in more;
    SizeAtMost({x}, more);
    assert |a + more| == |a| + |more|;
  }

  lemma SizeShrinksByOne<U>(a: set<U>, x: U, b: set<U>)
    requires a - {x} <= b
    ensures |a| - 1 <= |b|
  {
    SizeAtMost(a - {x}, b);
  }

  /** Who waits and who is woken once t has put its item and signalled. */
  lemma AfterPut<T>(s: State<T>, t: Thread, e: T, blocking: bool, lucky: set<Thread>)
    requires MayEnq(s, t, e, blocking) && HasSpace(s) && lucky <= ItemWaiters(s)
    ensures var r := AfterEnq(s, t, e, blocking, lucky);
            && ItemWaiters(r) == ItemWaiters(s) - lucky && SpaceWaiters(r) == SpaceWaiters(s)
            && ItemWoken(s) !! lucky && ItemWoken(s) + lucky <= ItemWoken(r)
            && SpaceWoken(s) - {t} <= SpaceWoken(r)
  {}

  lemma AfterTake<T>(s: State<T>, t: Thread, lucky: set<Thread>)
    requires MayDeq(s, t) && s.q != [] && s.max != 0 && |s.q| - 1 < s.max && lucky <= SpaceWaiters(s)
    ensures var r := AfterDeq(s, t, lucky);
            && SpaceWaiters(r) == SpaceWaiters(s) - lucky && ItemWaiters(r) == ItemWaiters(s)
            && SpaceWoken(s) !! lucky && SpaceWoken(s) + lucky <= SpaceWoken(r)
            && ItemWoken(s) - {t} <= ItemWoken(r)
  {}

  lemma EnqKeepsSound<T>(s: State<T>, t: Thread, e: T, blocking: bool, lucky: set<Thread>)
    requires Sound(s) && MayEnq(s, t, e, blocking)
    requires EnqWakes(s, lucky)
    ensures Sound(AfterEnq(s, t, e, blocking, lucky))
  {
    var r := AfterEnq(s, t, e, blocking, lucky);
    if HasSpace(s) {
      AfterPut(s, t, e, blocking, lucky);
      hide ItemWaiters, SpaceWaiters, ItemWoken, SpaceWoken;
      if ItemWaiters(r) != {} {
        SizeGrows(ItemWoken(s), lucky, ItemWoken(r));
      }
      SizeShrinksByOne(SpaceWoken(s), t, SpaceWoken(r));
    } else {
      assert ItemWaiters(r) == ItemWaiters(s) && ItemWoken(r) == ItemWoken(s);
    }
  }

  lemma EmptyDeqKeepsSound<T>(s: State<T>, t: Thread, lucky: set<Thread>)
    requires Sound(s) && MayDeq(s, t) && s.q == []
    ensures Sound(AfterDeq(s, t, lucky))
  {
    var r := AfterDeq(s, t, lucky);
    assert SpaceWaiters(r) == SpaceWaiters(s) && SpaceWoken(r) == SpaceWoken(s);
  }

  lemma UnlimitedDeqKeepsSound<T>(s: State<T>, t: Thread, lucky: set<Thread>)
    requires Sound(s) && MayDeq(s, t) && s.q != [] && s.max == 0
    ensures Sound(AfterDeq(s, t, lucky))
  {
    var r := AfterDeq(s, t, lucky);
    assert ItemWaiters(r) == ItemWaiters(s) && SpaceWaiters(r) == SpaceWaiters(s);
    SizeShrinksByOne(ItemWoken(s), t, ItemWoken(r));
  }

  lemma DeqKeepsSound<T>(s: State<T>, t: Thread, lucky: set<Thread>)
    requires Sound(s) && MayDeq(s, t)
    requires DeqWakes(s, lucky)
    ensures Sound(AfterDeq(s, t, lucky))
  {
    if s.q == [] {
      EmptyDeqKeepsSound(s, t, lucky);
    } else if s.max == 0 {
      UnlimitedDeqKeepsSound(s, t, lucky);
    } else {
      var r := AfterDeq(s, t, lucky);
      AfterTake(s, t, lucky);
      hide ItemWaiters, SpaceWaiters, ItemWoken, SpaceWoken;
      SizeShrinksByOne(ItemWoken(s), t, ItemWoken(r));
      if SpaceWaiters(r) != {} {
        SizeGrows(SpaceWoken(s), lucky, SpaceWoken(r));
      }
    }
  }

  lemma SpuriousKeepsSound<T>(s: State<T>, lucky: set<Thread>)
    requires Sound(s) && lucky <= SpaceWaiters(s) + ItemWaiters(s)
    ensures Sound(Unblock(s, lucky))
  {
    var r := Unblock(s, lucky);
    assert ItemWaiters(r) <= ItemWaiters(s) && SpaceWaiters(r) <= SpaceWaiters(s);
    SizeAtMost(ItemWoken(s), ItemWoken(r));
    SizeAtMost(SpaceWoken(s), SpaceWoken(r));
  }

  // ---------------------------------------------------------------- the monitor

  class Queue<T(==)> {
    const max: nat
    var q: seq<T>
    var phase: map<Thread, Phase<T>>

    function Now(): State<T>
      reads this
    {
      State(max, q, phase)
    }

    constructor (limit: nat, threads: set<Thread>)
      ensures Now() == Start(limit, threads)
      ensures Sound(Now())
    {
      max := limit;
      q := [];
      phase := map t | t in threads :: Idle;
    }

    /** One turn of enq's loop: from taking the mutex, as a new call or after a wait, until it is
        released. lucky is what the signal unblocks. */
    method Enq(t: Thread, e: T, blocking: bool, lucky: set<Thread>) returns (r: Result<T>)
      requires Sound(Now()) && MayEnq(Now(), t, e, blocking)
      requires EnqWakes(Now(), lucky)
      modifies this
      ensures Now() == AfterEnq(old(Now()), t, e, blocking, lucky)
      ensures r == EnqReply(old(Now()), blocking)
      ensures q == if r == Returned(true) then old(q) + [e] else old(q)
      ensures Sound(Now())
    {
      EnqKeepsSound(Now(), t, e, blocking, lucky);
      if max == 0 || |q| < max {
        q := q + [e];
        phase := phase[t := Idle];
        phase := map u | u in phase :: if u in lucky then Unblocked(phase[u]) else phase[u];
        return Returned(true);
      }
      if blocking {
        phase := phase[t := WaitSpace(e)];
        return Blocked;
      }
      return Returned(false);
    }

    /** One turn of deq's loop. */
    method Deq(t: Thread, lucky: set<Thread>) returns (r: Result<T>)
      requires Sound(Now()) && MayDeq(Now(), t)
      requires DeqWakes(Now(), lucky)
      modifies this
      ensures Now() == AfterDeq(old(Now()), t, lucky)
      ensures r == DeqReply(old(Now()))
      ensures old(q) == if r == Blocked then q else [r.item] + q
      ensures Sound(Now())
    {
      DeqKeepsSound(Now(), t, lucky);
      if q == [] {
        phase := phase[t := WaitItem];
        return Blocked;
      }
      var e := q[0];
      q := q[1..];
      phase := phase[t := Idle];
      if max != 0 && |q| < max {
        phase := map u | u in phase :: if u in lucky then Unblocked(phase[u]) else phase[u];
      }
      return Got(e);
    }

    /** pthread_cond_wait may return although nobody signalled. */
    method WakeSpuriously(lucky: set<Thread>)
      requires Sound(Now()) && lucky <= SpaceWaiters(Now()) + ItemWaiters(Now())
      modifies this
      ensures Now() == Unblock(old(Now()), lucky)
      ensures Sound(Now())
    {
      SpuriousKeepsSound(Now(), lucky);
      phase := map u | u in phase :: if u in lucky then Unblocked(phase[u]) else phase[u];
    }
  }

  // ---------------------------------------------------------------- every reachable state

  function End<T>(s: State<T>, evs: seq<Event<T>>): State<T>
    decreases |evs|
  {
    if evs == [] then s else Step(End(s, evs[..|evs| - 1]), evs[|evs| - 1])
  }

  /** The steps can be taken one after the other: any interleaving, any choice of the threads a
      signal unblocks, any spurious wakeups. */
  predicate Possible<T(==)>(s: State<T>, evs: seq<Event<T>>)
    decreases |evs|
  {
    evs == [] ||
    (Possible(s, evs[..|evs| - 1]) && Enabled(End(s, evs[..|evs| - 1]), evs[|evs| - 1]))
  }

  /** What the calls of a run are answered, one answer for each event. */
  function Replies<T>(s: State<T>, evs: seq<Event<T>>): (rs: seq<Result<T>>)
    ensures |rs| == |evs|
    decreases |evs|
  {
    if evs == [] then [] else
      Replies(s, evs[..|evs| - 1]) + [Reply(End(s, evs[..|evs| - 1]), evs[|evs| - 1])]
  }

  lemma {:induction false} RunKeepsSound<T>(s: State<T>, evs: seq<Event<T>>)
    requires Sound(s) && Possible(s, evs)
    ensures Sound(End(s, evs)) && End(s, evs).max == s.max
    decreases |evs|
  {
    if evs == [] {
    } else {
      hide Sound, EnqWakes, DeqWakes, HasSpace, MayEnq, MayDeq;
      var before := evs[..|evs| - 1];
      RunKeepsSound(s, before);
      match evs[|evs| - 1] {
        case EvEnq(t, e, blocking, lucky) => EnqKeepsSound(End(s, before), t, e, blocking, lucky);
        case EvDeq(t, lucky) => DeqKeepsSound(End(s, before), t, lucky);
        case EvSpurious(lucky) => SpuriousKeepsSound(End(s, before), lucky);
      }
    }
  }

  lemma StartIsSound<T>(max: nat, threads: set<Thread>)
    ensures Sound(Start<T>(max, threads))
  {
    var start := Start<T>(max, threads);
    assert ItemWaiters(start) == {} && SpaceWaiters(start) == {};
  }

  // ---------------------------------------------------------------- what the callers see

  /** The items that enq took, in the order of the mutex: read off calls and answers alone. */
  function Accepted<T(==)>(evs: seq<Event<T>>, rs: seq<Result<T>>): seq<T>
    requires |rs| == |evs|
  {
    if evs == [] then [] else
      var n := |evs| - 1;
      Accepted(evs[..n], rs[..n]) + if evs[n].EvEnq? && rs[n] == Returned(true) then [evs[n].e] else []
  }

  /** The items that deq handed out. */
  function Answered<T>(rs: seq<Result<T>>): seq<T> {
    if rs == [] then [] else
      var n := |rs| - 1;
      Answered(rs[..n]) + if rs[n].Got? then [rs[n].item] else []
  }

  /** Whether thread t waits, and for what, read off calls and answers alone: it waits since it
      was last answered Blocked, until an event unblocks it. */
  function Whereabouts<T(==)>(t: Thread, evs: seq<Event<T>>, rs: seq<Result<T>>): Phase<T>
    requires |rs| == |evs|
  {
    if evs == [] then Idle else
      var n := |evs| - 1;
      var ev := evs[n];
      if ev.EvEnq? && ev.t == t then (if rs[n] == Blocked then WaitSpace(ev.e) else Idle)
      else if ev.EvDeq? && ev.t == t then (if rs[n] == Blocked then WaitItem else Idle)
      else
        var p := Whereabouts(t, evs[..n], rs[..n]);
        if t !in ev.lucky then p
        else if p.WaitSpace? then WokenSpace(p.item)
        else if p.WaitItem? then WokenItem
        else p
  }

  /** One event appends what it accepts at the back, and takes what it hands out from the front. */
  lemma StepMovesOneItem<T>(s: State<T>, ev: Event<T>)
    ensures var r := Reply(s, ev);
            s.q + (if ev.EvEnq? && r == Returned(true) then [ev.e] else [])
              == (if r.Got? then [r.item] else []) + Step(s, ev).q
  {}

  lemma Reassociate<T>(accepted: seq<T>, answered: seq<T>, q: seq<T>, come: seq<T>, gone: seq<T>, q': seq<T>)
    requires accepted == answered + q && q + come == gone + q'
    ensures accepted + come == answered + gone + q'
  {
    assert answered + q + come == answered + (q + come);
  }

  /** First in, first out: in every run, whatever the interleaving, the items accepted so far are
      the items handed out, in the same order, followed by those still in the queue. */
  lemma {:induction false} FirstInFirstOut<T>(max: nat, threads: set<Thread>, evs: seq<Event<T>>)
    requires Possible(Start<T>(max, threads), evs)
    ensures var s := Start<T>(max, threads);
            Accepted(evs, Replies(s, evs)) == Answered(Replies(s, evs)) + End(s, evs).q
    decreases |evs|
  {
    var s := Start<T>(max, threads);
    if evs == [] {
    } else {
      var n := |evs| - 1;
      var before := End(s, evs[..n]);
      FirstInFirstOut<T>(max, threads, evs[..n]);
      StepMovesOneItem(before, evs[n]);
      hide Step, Reply, Enabled, Possible, Start;
      var rs := Replies(s, evs);
      assert rs[..n] == Replies(s, evs[..n]) && rs[n] == Reply(before, evs[n]);
      Reassociate(Accepted(evs[..n], rs[..n]), Answered(rs[..n]), before.q,
        if evs[n].EvEnq? && rs[n] == Returned(true) then [evs[n].e] else [],
        if rs[n].Got? then [rs[n].item] else [], End(s, evs).q);
    }
  }

  lemma {:induction false} RepliesOfPrefix<T>(s: State<T>, evs: seq<Event<T>>, k: nat)
    requires Possible(s, evs) && k <= |evs|
    ensures Possible(s, evs[..k]) && Replies(s, evs)[..k] == Replies(s, evs[..k])
    decreases |evs|
  {
    if k == |evs| {
      assert evs[..k] == evs && Replies(s, evs)[..k] == Replies(s, evs);
    } else {
      var n := |evs| - 1;
      RepliesOfPrefix(s, evs[..n], k);
      assert evs[..n][..k] == evs[..k];
      assert Replies(s, evs)[..k] == Replies(s, evs[..n])[..k];
    }
  }

  /** Every answer of a run follows from the calls and answers before it: enq succeeds exactly
      while the limit leaves room, and deq hands out the next item not yet handed out, or waits. */
  lemma AnswersFollow<T>(max: nat, threads: set<Thread>, evs: seq<Event<T>>, k: nat)
    requires Possible(Start<T>(max, threads), evs) && k < |evs|
    ensures var rs := Replies(Start<T>(max, threads), evs);
            var accepted := Accepted(evs[..k], rs[..k]);
            var answered := Answered(rs[..k]);
            && |answered| <= |accepted|
            && match evs[k] {
                 case EvEnq(t, e, blocking, lucky) =>
                   rs[k] == if max == 0 || |accepted| - |answered| < max then Returned(true)
                            else if blocking then Blocked else Returned(false)
                 case EvDeq(t, lucky) =>
                   rs[k] == if |answered| < |accepted| then Got(accepted[|answered|]) else Blocked
                 case EvSpurious(lucky) => rs[k] == Nothing
               }
  {
    var s := Start<T>(max, threads);
    RepliesOfPrefix(s, evs, k);
    RepliesOfPrefix(s, evs, k + 1);
    var now := evs[..k + 1];
    assert now[..k] == evs[..k] && now[k] == evs[k];
    FirstInFirstOut<T>(max, threads, evs[..k]);
    StartIsSound<T>(max, threads);
    RunKeepsSound(s, evs[..k]);
    hide Sound, Accepted, Answered, Possible, Step, ItemWaiters, SpaceWaiters;
    assert Replies(s, evs)[k] == Replies(s, evs)[..k + 1][k] == Replies(s, now)[k];
    assert Replies(s, now)[k] == Reply(End(s, evs[..k]), evs[k]);
  }

  lemma StepMovesThreads<T>(s: State<T>, ev: Event<T>, t: Thread)
    requires Sound(s) && Enabled(s, ev) && t in s.phase
    ensures t in Step(s, ev).phase
    ensures var p := s.phase[t];
            Step(s, ev).phase[t] ==
              if ev.EvEnq? && ev.t == t then (if Reply(s, ev) == Blocked then WaitSpace(ev.e) else Idle)
              else if ev.EvDeq? && ev.t == t then (if Reply(s, ev) == Blocked then WaitItem else Idle)
              else if t !in ev.lucky then p
              else if p.WaitSpace? then WokenSpace(p.item)
              else if p.WaitItem? then WokenItem
              else p
  {
    hide NoLostItem, NoLostSpace;
  }

  /** A thread that was answered Blocked waits, an enq with its own item, until an event unblocks
      it; and no thread waits otherwise. */
  lemma {:induction false} ThreadsAreWhereTheyWereLeft<T>(max: nat, threads: set<Thread>, evs: seq<Event<T>>, t: Thread)
    requires Possible(Start<T>(max, threads), evs) && t in threads
    ensures var s := Start<T>(max, threads);
            t in End(s, evs).phase && End(s, evs).phase[t] == Whereabouts(t, evs, Replies(s, evs))
    decreases |evs|
  {
    var s := Start<T>(max, threads);
    if evs == [] {
    } else {
      var n := |evs| - 1;
      ThreadsAreWhereTheyWereLeft<T>(max, threads, evs[..n], t);
      StartIsSound<T>(max, threads);
      RunKeepsSound(s, evs[..n]);
      assert Replies(s, evs)[..n] == Replies(s, evs[..n]);
      StepMovesThreads(End(s, evs[..n]), evs[n], t);
    }
  }

  // ---------------------------------------------------------------- no lost wakeup

  /** In every reachable state the limit is kept and no wakeup is lost: while a thread waits for
      something that is there, a woken thread is on its way to it. */
  lemma NoLostWakeup<T>(max: nat, threads: set<Thread>, evs: seq<Event<T>>)
    requires Possible(Start<T>(max, threads), evs)
    ensures var s := End(Start<T>(max, threads), evs);
            && (max > 0 ==> |s.q| <= max)
            && (ItemWaiters(s) != {} ==> |s.q| <= |ItemWoken(s)|)
            && (SpaceWaiters(s) != {} ==> max > 0 && max - |s.q| <= |SpaceWoken(s)|)
            && (ItemWaiters(s) != {} && s.q != [] ==> ItemWoken(s) != {})
            && (SpaceWaiters(s) != {} && |s.q| < max ==> SpaceWoken(s) != {})
  {
    StartIsSound<T>(max, threads);
    RunKeepsSound(Start<T>(max, threads), evs);
  }

  /** A producer and a consumer are never both stuck: while both kinds wait, some thread is woken. */
  lemma NoDeadlock<T>(max: nat, threads: set<Thread>, evs: seq<Event<T>>)
    requires Possible(Start<T>(max, threads), evs)
    ensures var s := End(Start<T>(max, threads), evs);
            ItemWaiters(s) != {} && SpaceWaiters(s) != {} ==> ItemWoken(s) + SpaceWoken(s) != {}
  {
    hide ItemWaiters, SpaceWaiters, ItemWoken, SpaceWoken, End, Possible;
    NoLostWakeup(max, threads, evs);
  }
}
