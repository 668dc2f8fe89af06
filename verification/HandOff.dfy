/** The hand-off of commands from the reader threads to the sender thread: data_queue.c with
    its mutex and condition variable, and the reference-counted data_context.c that all
    commands parsed from one read share. Every lock region is one atomic step and any
    interleaving of the steps is a run. */
module HandOff {
  import opened Bytes
  import DataQueue

  type Id = nat

  /** A queued command and its context. */
  datatype Item = Item(command: nat, context: Id)

  /** Where a reader thread is: between reads; parsing with a context held; with a further
      reference taken for a command it is about to queue; about to destroy a context whose
      count it brought to zero. */
  datatype Reader = Reading | Parsing(context: Id) | Queuing(item: Item) | Destroying(context: Id)

  /** Where the sender thread is: before taking the queue's lock; waiting on the condition
      variable, signalled or not; with an item, before and after giving up its reference. */
  datatype Handler = Ready | Waiting(signalled: bool) | Holding(item: Item) | Dropping(item: Item) | Sending(item: Item) | Stopped

  datatype Context = Context(reference: nat, destroyed: bool)

  /** `added`, `handled` and `freed` are histories that no step reads. */
  datatype State = State(queue: DataQueue.View<Item>, handler: Handler, readers: seq<Reader>,
                         contexts: map<Id, Context>, added: seq<Item>, handled: seq<Item>, freed: seq<Id>)

  datatype Step =
    | Open(r: nat, newId: Id)
    | Acquire(r: nat, command: nat)
    | Add(r: nat)
    | Release(r: nat)
    | Destroy(r: nat)
    | Lock
    | WakeUp
    | Drop
    | DropDestroy
    | Finish
    | Stop

  function Start(readers: nat): State {
    State(DataQueue.Empty(), Ready, seq(readers, i => Reading), map[], [], [], [])
  }

  predicate Enabled(s: State, t: Step) {
    match t
    case Open(r, newId) => r < |s.readers| && s.readers[r].Reading? && newId !in s.contexts
    case Acquire(r, _) => r < |s.readers| && s.readers[r].Parsing?
    case Add(r) => r < |s.readers| && s.readers[r].Queuing?
    case Release(r) => r < |s.readers| && s.readers[r].Parsing?
    case Destroy(r) => r < |s.readers| && s.readers[r].Destroying?
    case Lock => s.handler.Ready? || (s.handler.Waiting? && s.handler.signalled)
    case WakeUp => s.handler.Waiting?
    case Drop => s.handler.Holding?
    case DropDestroy => s.handler.Dropping?
    case Finish => s.handler.Sending?
    case Stop => true
  }

  /** The context whose memory a step reads or writes. */
  function Touched(s: State, t: Step): Option<Id>
    requires Enabled(s, t)
  {
    match t
    case Acquire(r, _) => Some(s.readers[r].context)
    case Release(r) => Some(s.readers[r].context)
    case Destroy(r) => Some(s.readers[r].context)
    case Drop => Some(s.handler.item.context)
    case DropDestroy => Some(s.handler.item.context)
    case _ => None
  }

  predicate Live(s: State, id: Id) {
    id in s.contexts && !s.contexts[id].destroyed
  }

  /** `pthread_cond_signal`: wakes the handler if it waits, and is lost otherwise. */
  function Signal(h: Handler): Handler {
    if h.Waiting? then Waiting(true) else h
  }

  function Refer(s: State, id: Id, reference: nat): map<Id, Context> {
    s.contexts[id := Context(reference, false)]
  }

  function Reference(s: State, id: Id): nat {
    if id in s.contexts then s.contexts[id].reference else 0
  }

  /** The count less one. A count that is released is never zero (`ReferencesCountHolders`). */
  function Less(n: nat): nat {
    if n == 0 then 0 else n - 1
  }

  function Next(s: State, t: Step): State
    requires Enabled(s, t)
  {
    match t
    case Open(r, newId) => s.(readers := s.readers[r := Parsing(newId)], contexts := Refer(s, newId, 1))
    case Acquire(r, command) =>
      var id := s.readers[r].context;
      s.(readers := s.readers[r := Queuing(Item(command, id))], contexts := Refer(s, id, Reference(s, id) + 1))
    case Add(r) =>
      var item := s.readers[r].item;
      s.(readers := s.readers[r := Parsing(item.context)], queue := DataQueue.Added(s.queue, item),
         handler := if DataQueue.Signals(s.queue) then Signal(s.handler) else s.handler, added := s.added + [item])
    case Release(r) =>
      var id := s.readers[r].context;
      var left := Less(Reference(s, id));
      s.(readers := s.readers[r := if left == 0 then Destroying(id) else Reading], contexts := Refer(s, id, left))
    case Destroy(r) =>
      var id := s.readers[r].context;
      s.(readers := s.readers[r := Reading], contexts := s.contexts[id := Context(0, true)], freed := s.freed + [id])
    case Lock =>
      if !s.queue.used && !s.queue.shutdown then s.(handler := Waiting(false))
      else if s.queue.shutdown then s.(handler := Stopped)
      else s.(handler := if s.queue.items == [] then Ready else Holding(s.queue.items[0]), queue := DataQueue.Taken(s.queue))
    case WakeUp => s.(handler := Waiting(true))
    case Drop =>
      var item := s.handler.item;
      var left := Less(Reference(s, item.context));
      s.(handler := if left == 0 then Dropping(item) else Sending(item), contexts := Refer(s, item.context, left))
    case DropDestroy =>
      var item := s.handler.item;
      s.(handler := Sending(item), contexts := s.contexts[item.context := Context(0, true)], freed := s.freed + [item.context])
    case Finish => s.(handler := Ready, handled := s.handled + [s.handler.item])
    case Stop => s.(queue := DataQueue.Stopped(s.queue), handler := Signal(s.handler))
  }

  predicate Runs(s: State, ts: seq<Step>)
    decreases |ts|
  {
    ts == [] || (Enabled(s, ts[0]) && Runs(Next(s, ts[0]), ts[1..]))
  }

  function Reach(s: State, ts: seq<Step>): State
    requires Runs(s, ts)
    decreases |ts|
  {
    if ts == [] then s else Reach(Next(s, ts[0]), ts[1..])
  }

  // Order and wake-ups.

  function InFlight(h: Handler): seq<Item> {
    if h.Holding? || h.Dropping? || h.Sending? then [h.item] else []
  }

  /** Commands are handled in the order added, each at most once; the state flag says whether
      the queue is empty; and no wake-up is lost: a handler that waits unsignalled has nothing
      to do. */
  predicate Orderly(s: State) {
    && s.handled + InFlight(s.handler) + s.queue.items == s.added
    && s.queue.used == (s.queue.items != [])
    && (s.handler == Waiting(false) ==> s.queue.items == [] && !s.queue.shutdown)
    && (s.handler.Stopped? ==> s.queue.shutdown)
  }

  lemma StepOrderly(s: State, t: Step)
    requires Orderly(s) && Enabled(s, t)
    ensures Orderly(Next(s, t))
  {
    var r := Next(s, t);
    match t {
      case Add(i) =>
        assert s.handled + InFlight(s.handler) + (s.queue.items + [s.readers[i].item]) ==
               (s.handled + InFlight(s.handler) + s.queue.items) + [s.readers[i].item];
      case Lock =>
        if s.queue.items != [] {
          assert s.queue.items == [s.queue.items[0]] + s.queue.items[1..];
        }
      case Finish =>
        assert s.handled + [s.handler.item] + [] == s.handled + [s.handler.item];
      case _ =>
    }
  }

  // Reference counts.

  /** References a reader accounts for: its own, and one for the command it is about to queue. */
  function ReaderHolds(r: Reader, id: Id): nat {
    match r
    case Parsing(c) => if c == id then 1 else 0
    case Queuing(item) => if item.context == id then 2 else 0
    case _ => 0
  }

  function ReadersHold(rs: seq<Reader>, id: Id): nat {
    if rs == [] then 0 else ReaderHolds(rs[0], id) + ReadersHold(rs[1..], id)
  }

  function ReaderDooms(r: Reader, id: Id): nat {
    if r == Destroying(id) then 1 else 0
  }

  function ReadersDoom(rs: seq<Reader>, id: Id): nat {
    if rs == [] then 0 else ReaderDooms(rs[0], id) + ReadersDoom(rs[1..], id)
  }

  function QueueHolds(q: seq<Item>, id: Id): nat {
    if q == [] then 0 else (if q[0].context == id then 1 else 0) + QueueHolds(q[1..], id)
  }

  /** Live holders: readers, queued commands, and the handler before its release. */
  function Holders(s: State, id: Id): nat {
    ReadersHold(s.readers, id) + QueueHolds(s.queue.items, id) +
    if s.handler.Holding? && s.handler.item.context == id then 1 else 0
  }

  /** Threads about to destroy the context. */
  function Doomers(s: State, id: Id): nat {
    ReadersDoom(s.readers, id) + if s.handler.Dropping? && s.handler.item.context == id then 1 else 0
  }

  function Freed(freed: seq<Id>, id: Id): nat {
    multiset(freed)[id]
  }

  /** For each context: while it is live its count is the number of its holders, and one thread
      is about to destroy it exactly when that is zero; a destroyed one has neither and was
      destroyed once; one not yet made has neither. */
  predicate Counted(s: State, id: Id) {
    && (Live(s, id) ==>
          && s.contexts[id].reference == Holders(s, id)
          && Doomers(s, id) == (if Holders(s, id) == 0 then 1 else 0)
          && Freed(s.freed, id) == 0)
    && (!Live(s, id) ==> Holders(s, id) == 0 && Doomers(s, id) == 0)
    && (id in s.contexts && s.contexts[id].destroyed ==> Freed(s.freed, id) == 1)
    && (id !in s.contexts ==> Freed(s.freed, id) == 0)
  }

  ghost predicate AllCounted(s: State) {
    forall id :: Counted(s, id)
  }

  lemma {:induction false} ReadersHoldUpdate(rs: seq<Reader>, i: nat, r: Reader, id: Id)
    requires i < |rs|
    ensures ReadersHold(rs[i := r], id) + ReaderHolds(rs[i], id) == ReadersHold(rs, id) + ReaderHolds(r, id)
    ensures ReadersDoom(rs[i := r], id) + ReaderDooms(rs[i], id) == ReadersDoom(rs, id) + ReaderDooms(r, id)
    decreases |rs|
  {
    if i == 0 {
      assert rs[i := r][1..] == rs[1..];
    } else {
      assert rs[i := r][1..] == rs[1..][i - 1 := r];
      ReadersHoldUpdate(rs[1..], i - 1, r, id);
    }
  }

  lemma {:induction false} QueueHoldsAppend(q: seq<Item>, item: Item, id: Id)
    ensures QueueHolds(q + [item], id) == QueueHolds(q, id) + if item.context == id then 1 else 0
    decreases |q|
  {
    if q == [] {
      assert (q + [item])[1..] == [];
    } else {
      assert (q + [item])[1..] == q[1..] + [item];
      QueueHoldsAppend(q[1..], item, id);
    }
  }

  lemma {:induction false} ReaderCounts(rs: seq<Reader>, i: nat, id: Id)
    requires i < |rs|
    ensures ReadersHold(rs, id) >= ReaderHolds(rs[i], id) && ReadersDoom(rs, id) >= ReaderDooms(rs[i], id)
    decreases |rs|
  {
    if i > 0 {
      ReaderCounts(rs[1..], i - 1, id);
    }
  }

  /** A step only touches a context that is live. */
  lemma TouchesLive(s: State, t: Step)
    requires AllCounted(s) && Enabled(s, t) && Touched(s, t).Some?
    ensures Live(s, Touched(s, t).value)
  {
    var id := Touched(s, t).value;
    assert Counted(s, id);
    match t {
      case Acquire(r, _) => ReaderCounts(s.readers, r, id);
      case Release(r) => ReaderCounts(s.readers, r, id);
      case Destroy(r) => ReaderCounts(s.readers, r, id);
      case _ =>
    }
  }

  lemma ReaderStepCounted(s: State, t: Step, id: Id)
    requires AllCounted(s) && Enabled(s, t) && (t.Open? || t.Acquire? || t.Add? || t.Release? || t.Destroy?)
    ensures Counted(Next(s, t), id)
  {
    var n := Next(s, t);
    assert Counted(s, id);
    ReadersHoldUpdate(s.readers, t.r, n.readers[t.r], id);
    ReaderCounts(s.readers, t.r, id);
    if t.Add? {
      QueueHoldsAppend(s.queue.items, s.readers[t.r].item, id);
    }
    if Touched(s, t).Some? {
      TouchesLive(s, t);
    }
    if t.Open? {
      assert Counted(s, t.newId);
    }
  }

  lemma HandlerStepCounted(s: State, t: Step, id: Id)
    requires AllCounted(s) && Enabled(s, t) && !(t.Open? || t.Acquire? || t.Add? || t.Release? || t.Destroy?)
    ensures Counted(Next(s, t), id)
  {
    assert Counted(s, id);
    if Touched(s, t).Some? {
      TouchesLive(s, t);
    }
  }

  lemma StepCounted(s: State, t: Step)
    requires AllCounted(s) && Enabled(s, t)
    ensures AllCounted(Next(s, t))
  {
    forall id
      ensures Counted(Next(s, t), id)
    {
      if t.Open? || t.Acquire? || t.Add? || t.Release? || t.Destroy? {
        ReaderStepCounted(s, t, id);
      } else {
        HandlerStepCounted(s, t, id);
      }
    }
  }

  lemma {:induction false} IdleReadersHoldNothing(rs: seq<Reader>, id: Id)
    requires forall i :: 0 <= i < |rs| ==> rs[i].Reading?
    ensures ReadersHold(rs, id) == 0 && ReadersDoom(rs, id) == 0
    decreases |rs|
  {
    if rs != [] {
      IdleReadersHoldNothing(rs[1..], id);
    }
  }

  lemma {:induction false} RunKeeps(s: State, ts: seq<Step>)
    requires Orderly(s) && AllCounted(s) && Runs(s, ts)
    ensures Orderly(Reach(s, ts)) && AllCounted(Reach(s, ts))
    decreases |ts|
  {
    if ts != [] {
      StepOrderly(s, ts[0]);
      StepCounted(s, ts[0]);
      RunKeeps(Next(s, ts[0]), ts[1..]);
    }
  }

  lemma StartHolds(readers: nat)
    ensures Orderly(Start(readers)) && AllCounted(Start(readers))
  {
    forall id
      ensures Counted(Start(readers), id)
    {
      IdleReadersHoldNothing(Start(readers).readers, id);
    }
  }

  /** In all interleavings, commands are handled in the order they were added and at most
      once: what was handled, what is in flight and what is queued make up what was added. A
      handler that waits unsignalled has an empty queue and no shutdown to act on. */
  lemma FifoNoLostWakeUp(readers: nat, ts: seq<Step>)
    requires Runs(Start(readers), ts)
    ensures var s := Reach(Start(readers), ts);
            && s.handled + InFlight(s.handler) + s.queue.items == s.added
            && (s.handler == Waiting(false) ==> s.queue.items == [] && !s.queue.shutdown)
  {
    StartHolds(readers);
    RunKeeps(Start(readers), ts);
  }

  /** So with work queued, or a shutdown to act on, the handler can always go on. */
  lemma HandlerNeverStuck(readers: nat, ts: seq<Step>)
    requires Runs(Start(readers), ts)
    ensures var s := Reach(Start(readers), ts);
            (s.queue.items != [] || s.queue.shutdown) && !s.handler.Stopped? ==>
              Enabled(s, Lock) || Enabled(s, Drop) || Enabled(s, DropDestroy) || Enabled(s, Finish)
  {
    FifoNoLostWakeUp(readers, ts);
  }

  // What the threads get done.

  /** The steps of the handler's own loop. */
  predicate HandlersOwn(ts: seq<Step>) {
    forall k :: 0 <= k < |ts| ==> ts[k].Lock? || ts[k].Drop? || ts[k].DropDestroy? || ts[k].Finish?
  }

  lemma OneThen(s: State, t: Step, more: seq<Step>)
    requires Enabled(s, t) && Runs(Next(s, t), more)
    ensures Runs(s, [t] + more) && Reach(s, [t] + more) == Reach(Next(s, t), more)
  {
    assert ([t] + more)[1..] == more;
  }

  /** Steps of the handler until it has stopped. */
  function ToStop(h: Handler): nat {
    match h
    case Holding(_) => 4
    case Dropping(_) => 3
    case Sending(_) => 2
    case Stopped => 0
    case _ => 1
  }

  lemma {:induction false} Stops(s: State) returns (more: seq<Step>)
    requires s.queue.shutdown && s.handler != Waiting(false)
    ensures |more| <= ToStop(s.handler) && HandlersOwn(more)
    ensures Runs(s, more) && Reach(s, more).handler == Stopped
    decreases ToStop(s.handler)
  {
    if s.handler.Stopped? {
      more := [];
    } else {
      var t := match s.handler case Holding(_) => Drop case Dropping(_) => DropDestroy case Sending(_) => Finish case _ => Lock;
      var rest := Stops(Next(s, t));
      OneThen(s, t, rest);
      more := [t] + rest;
    }
  }

  /** A shutdown is acted on: from every reachable state in which it was asked for, at most four
      steps of the handler, which nobody else has to make possible, end its thread. */
  lemma ShutdownStops(readers: nat, ts: seq<Step>) returns (more: seq<Step>)
    requires Runs(Start(readers), ts) && Reach(Start(readers), ts).queue.shutdown
    ensures var s := Reach(Start(readers), ts);
            |more| <= 4 && HandlersOwn(more) && Runs(s, more) && Reach(s, more).handler == Stopped
  {
    FifoNoLostWakeUp(readers, ts);
    more := Stops(Reach(Start(readers), ts));
  }

  /** It can be asked for in every reachable state. */
  lemma StopEnds(readers: nat, ts: seq<Step>) returns (more: seq<Step>)
    requires Runs(Start(readers), ts)
    ensures var s := Reach(Start(readers), ts);
            |more| <= 4 && HandlersOwn(more) && Runs(s, [Stop] + more) && Reach(s, [Stop] + more).handler == Stopped
  {
    var s := Reach(Start(readers), ts);
    more := Stops(Next(s, Stop));
    OneThen(s, Stop, more);
  }

  /** After a shutdown was asked for no further command is taken up, and a handler that has
      stopped stays so. */
  lemma {:induction false} AfterShutdown(s: State, ts: seq<Step>)
    requires s.queue.shutdown && Runs(s, ts)
    ensures var r := Reach(s, ts);
            && r.queue.shutdown && r.handled + InFlight(r.handler) == s.handled + InFlight(s.handler)
            && (s.handler == Stopped ==> r.handler == Stopped)
    decreases |ts|
  {
    if ts != [] {
      AfterShutdown(Next(s, ts[0]), ts[1..]);
    }
  }

  /** Steps of the handler until it has handled a command. */
  function ToHandle(h: Handler): nat {
    match h
    case Holding(_) => 3
    case Dropping(_) => 2
    case Sending(_) => 1
    case _ => 4
  }

  lemma {:induction false} Handles(s: State) returns (more: seq<Step>)
    requires s.queue.used == (s.queue.items != []) && InFlight(s.handler) + s.queue.items != []
    requires !s.queue.shutdown && !s.handler.Stopped? && s.handler != Waiting(false)
    ensures |more| <= 4 && |more| <= ToHandle(s.handler) && HandlersOwn(more) && Runs(s, more)
    ensures Reach(s, more).handled == s.handled + [(InFlight(s.handler) + s.queue.items)[0]]
    decreases ToHandle(s.handler)
  {
    if s.handler.Sending? {
      more := [Finish];
      OneThen(s, Finish, []);
    } else {
      var t := match s.handler case Holding(_) => Drop case Dropping(_) => DropDestroy case _ => Lock;
      var rest := Handles(Next(s, t));
      OneThen(s, t, rest);
      more := [t] + rest;
    }
  }

  /** Work gets done: from every reachable state with a command in flight or queued and no
      shutdown, at most four steps of the handler handle the first such command. */
  lemma NextIsHandled(readers: nat, ts: seq<Step>) returns (more: seq<Step>)
    requires Runs(Start(readers), ts)
    requires var s := Reach(Start(readers), ts); !s.queue.shutdown && InFlight(s.handler) + s.queue.items != []
    ensures var s := Reach(Start(readers), ts);
            && |more| <= 4 && HandlersOwn(more) && Runs(s, more)
            && Reach(s, more).handled == s.handled + [(InFlight(s.handler) + s.queue.items)[0]]
  {
    StartHolds(readers);
    RunKeeps(Start(readers), ts);
    more := Handles(Reach(Start(readers), ts));
  }

  /** With nothing to do the handler waits, and has changed nothing. */
  lemma IdleWaits(readers: nat, ts: seq<Step>)
    requires Runs(Start(readers), ts)
    requires var s := Reach(Start(readers), ts); Enabled(s, Lock) && s.queue.items == [] && !s.queue.shutdown
    ensures var s := Reach(Start(readers), ts); Next(s, Lock) == s.(handler := Waiting(false))
  {
    StartHolds(readers);
    RunKeeps(Start(readers), ts);
  }

  /** A reader queues the command it parsed with the context of its read, and goes on parsing. */
  lemma ReaderQueues(s: State, r: nat, command: nat)
    requires r < |s.readers| && s.readers[r].Parsing?
    ensures var ts := [Acquire(r, command), Add(r)];
            && Runs(s, ts) && Reach(s, ts).readers == s.readers
            && Reach(s, ts).added == s.added + [Item(command, s.readers[r].context)]
  {
    var s1 := Next(s, Acquire(r, command));
    OneThen(s1, Add(r), []);
    OneThen(s, Acquire(r, command), [Add(r)]);
    assert Reach(s1, [Add(r)]).readers == s.readers;
  }

  /** A read begins with a context that the reader alone holds, and ends, at the latest with the
      destruction of the context, with the reader ready for the next. */
  lemma ReaderBegins(s: State, r: nat, newId: Id)
    requires Enabled(s, Open(r, newId))
    ensures var n := Next(s, Open(r, newId));
            n.readers == s.readers[r := Parsing(newId)] && n.contexts == s.contexts[newId := Context(1, false)]
  {
  }

  lemma ReaderEnds(s: State, r: nat) returns (ts: seq<Step>)
    requires r < |s.readers| && s.readers[r].Parsing?
    ensures ts == [Release(r)] || ts == [Release(r), Destroy(r)]
    ensures Runs(s, ts) && Reach(s, ts).readers == s.readers[r := Reading]
  {
    var s1 := Next(s, Release(r));
    if s1.readers[r].Reading? {
      ts := [Release(r)];
      OneThen(s, Release(r), []);
    } else {
      ts := [Release(r), Destroy(r)];
      OneThen(s1, Destroy(r), []);
      OneThen(s, Release(r), [Destroy(r)]);
    }
  }

  // References.

  /** In all interleavings, the count of a live context is the number of its holders, no step
      touches a context that was destroyed, and none is destroyed twice. */
  lemma ReferencesCountHolders(readers: nat, ts: seq<Step>, id: Id, t: Step)
    requires Runs(Start(readers), ts) && Enabled(Reach(Start(readers), ts), t)
    ensures var s := Reach(Start(readers), ts);
            && (Live(s, id) ==> s.contexts[id].reference == Holders(s, id))
            && (Touched(s, t) == Some(id) ==> Live(s, id))
            && Freed(s.freed, id) <= 1
  {
    StartHolds(readers);
    RunKeeps(Start(readers), ts);
    var s := Reach(Start(readers), ts);
    assert Counted(s, id);
    if Touched(s, t) == Some(id) {
      TouchesLive(s, t);
    }
  }

  /** When the readers are between reads, the queue has drained and the handler has given up its
      reference, every context ever made has been destroyed exactly once. */
  lemma DrainedMeansFreed(readers: nat, ts: seq<Step>, id: Id)
    requires Runs(Start(readers), ts)
    requires var s := Reach(Start(readers), ts);
             && (forall i :: 0 <= i < |s.readers| ==> s.readers[i].Reading?)
             && s.queue.items == [] && !s.handler.Holding? && !s.handler.Dropping?
    ensures var s := Reach(Start(readers), ts);
            id in s.contexts ==> s.contexts[id].destroyed && Freed(s.freed, id) == 1
  {
    StartHolds(readers);
    RunKeeps(Start(readers), ts);
    var s := Reach(Start(readers), ts);
    assert Counted(s, id);
    IdleReadersHoldNothing(s.readers, id);
  }
}
