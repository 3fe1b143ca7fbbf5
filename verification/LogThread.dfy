/** The logger thread: writers append to one of two lists under a lock and signal; the logger
    swaps the lists and hands the messages to the backend. Every load or store of a shared
    variable outside the lock is a step of its own. */
module LogThread {
  import opened Collections
  import opened Wrappers

  const MAX_LIST_SIZE: int := 2000

  type Size = n: int | 0 <= n <= MAX_LIST_SIZE
  type ListIndex = n: int | 0 <= n <= 1

  datatype Item = Item(severity: int, source: string, msg: string)

  /** Where a writing thread is in Log::InvokeFrontend and LogThread::Write. */
  datatype Writer =
    | Idle
    | Entered(item: Item)                       // holds the lock
    | Sized(item: Item, list: ListIndex, size: Size)   // has read the list and its size
    | Stored(item: Item, list: ListIndex, size: Size)  // has written the item, not yet the size
    | Counted                                   // has written the size
    | Delivered                                 // called the backend itself
    | Unlocked                                  // before the exchange of the flag
    | Signalling                                // the flag was clear: before the Set

  /** Which call of RunList this is. */
  datatype Caller = Pump | CleanupFirst | CleanupSecond

  /** Where the logger thread is in Entrypoint, RunList and Cleanup. */
  datatype Logger =
    | Starting
    | Waiting
    | Woken
    | CheckDie
    | ReadSize(caller: Caller)
    | Swap(caller: Caller, list: ListIndex)
    | Refresh(caller: Caller, list: ListIndex)
    | Deliver(caller: Caller, list: ListIndex, size: Size, next: Size)
    | Exchange
    | Sleep
    | Reset
    | Done

  datatype State = State(
    writers: map<int, Writer>,
    lock: Option<int>,
    toList: bool,           // _frontend is LogThread::Write, not the backend
    writing: ListIndex,           // _list_writing
    sizes: seq<Size>,
    lists: seq<seq<Item>>,
    flagged: bool,
    wakeup: bool,
    die: bool,
    logger: Logger,
    accepted: seq<Item>,    // everything counted into a list
    delivered: seq<Item>,   // what the logger gave to the backend
    direct: seq<Item>)      // what writers gave to the backend

  datatype Event =
    | Enter(id: int, item: Item)
    | WriterStep(id: int)
    | LoggerStep
    | SpuriousWake
    | WaitFails
    | SetDie
    | SetWakeup

  function At(s: State, id: int): Writer {
    if id in s.writers then s.writers[id] else Idle
  }

  predicate Initial(s: State) {
    && s.writers == map[] && s.lock == None && !s.toList && s.writing == 0
    && s.sizes == [0, 0] && |s.lists| == 2 && |s.lists[0]| == |s.lists[1]| == MAX_LIST_SIZE
    && !s.flagged && !s.wakeup && !s.die && s.logger == Starting
    && s.accepted == [] && s.delivered == [] && s.direct == []
  }

  predicate Shape(s: State) {
    |s.sizes| == |s.lists| == 2 && |s.lists[0]| == |s.lists[1]| == MAX_LIST_SIZE
  }

  predicate Enabled(s: State, e: Event) {
    match e
    case Enter(id, _) => At(s, id) == Idle && s.lock == None
    case WriterStep(id) => At(s, id) != Idle
    case LoggerStep =>
      match s.logger {
        case Waiting => s.wakeup
        case Starting => s.lock == None
        case Swap(_, _) => s.lock == None
        case Reset => s.lock == None
        case Done => false
        case _ => true
      }
    case SpuriousWake => s.logger == Waiting
    case WaitFails => s.logger == Waiting
    case SetDie => true
    case SetWakeup => s.die
  }

  function OverflowMark(item: Item, size: Size): Item {
    if size >= MAX_LIST_SIZE - 1 then item.(source := "LOG OVERFLOW") else item
  }

  function WriterNext(s: State, id: int): (t: State)
    requires Shape(s) && At(s, id) != Idle
    ensures Shape(t)
  {
    match At(s, id)
    case Entered(item) =>
      if s.toList then s.(writers := s.writers[id := Sized(item, s.writing, s.sizes[s.writing])])
      else s.(writers := s.writers[id := Delivered], direct := s.direct + [item])
    case Sized(item, list, size) =>
      if size > MAX_LIST_SIZE - 1 then s.(writers := s.writers[id := Idle], lock := None)
      else
        var marked := OverflowMark(item, size);
        s.(writers := s.writers[id := Stored(marked, list, size + 1)],
           lists := s.lists[list := s.lists[list][size := marked]])
    case Stored(item, list, size) =>
      s.(writers := s.writers[id := Counted], sizes := s.sizes[list := size], accepted := s.accepted + [item])
    case Counted => s.(writers := s.writers[id := Unlocked], lock := None)
    case Delivered => s.(writers := s.writers[id := Idle], lock := None)
    case Unlocked => s.(writers := s.writers[id := if s.flagged then Idle else Signalling], flagged := true)
    case Signalling => s.(writers := s.writers[id := Idle], wakeup := true)
  }

  /** Where the logger goes when RunList returns. */
  function Return(caller: Caller): Logger {
    match caller
    case Pump => Exchange
    case CleanupFirst => ReadSize(CleanupSecond)
    case CleanupSecond => Done
  }

  function LoggerNext(s: State): (t: State)
    requires Shape(s) && s.logger != Done
    ensures Shape(t) && t.writers == s.writers && t.lock == s.lock && t.lists == s.lists && t.accepted == s.accepted
  {
    match s.logger
    case Starting => s.(toList := true, logger := Waiting)
    case Waiting => s.(wakeup := false, logger := Woken)
    case Woken => s.(flagged := false, logger := CheckDie)
    case CheckDie => s.(logger := if s.die then Reset else ReadSize(Pump))
    case ReadSize(caller) =>
      s.(logger := if s.sizes[s.writing] <= 0 then Return(caller) else Swap(caller, s.writing))
    case Swap(caller, list) => s.(writing := 1 - list, logger := Refresh(caller, list))
    case Refresh(caller, list) => s.(logger := Deliver(caller, list, s.sizes[list], 0))
    case Deliver(caller, list, size, next) =>
      if next < size then
        s.(delivered := s.delivered + [s.lists[list][next]], logger := Deliver(caller, list, size, next + 1))
      else s.(sizes := s.sizes[list := 0], logger := Return(caller))
    case Exchange => s.(flagged := false, logger := if s.flagged then CheckDie else Sleep)
    case Sleep => s.(logger := Waiting)
    case Reset => s.(toList := false, logger := ReadSize(CleanupFirst))
  }

  function Apply(s: State, e: Event): (t: State)
    requires Shape(s) && Enabled(s, e)
    ensures Shape(t)
  {
    match e
    case Enter(id, item) => s.(writers := s.writers[id := Entered(item)], lock := Some(id))
    case WriterStep(id) => WriterNext(s, id)
    case LoggerStep => LoggerNext(s)
    case SpuriousWake => LoggerNext(s)
    case WaitFails => s.(logger := Reset)
    case SetDie => s.(die := true)
    case SetWakeup => s.(wakeup := true)
  }

  // --------------------------------------------------------------- invariant

  /** Counted but not yet delivered, in order. */
  function Pending(s: State): seq<Item>
    requires Shape(s) && LoggerOk(s)
  {
    InWork(s) + s.lists[s.writing][..s.sizes[s.writing]]
  }

  /** What RunList has still to deliver of its list. */
  function InWork(s: State): seq<Item>
    requires Shape(s) && LoggerOk(s)
  {
    match s.logger
    case Refresh(_, list) => s.lists[list][..s.sizes[list]]
    case Deliver(_, list, size, next) => s.lists[list][next..size]
    case _ => []
  }

  /** While RunList works on a list the other one is being written; otherwise the list that
      is not being written is empty. */
  predicate LoggerOk(s: State)
    requires Shape(s)
  {
    match s.logger
    case Swap(_, list) => list == s.writing && s.sizes[list] > 0 && s.sizes[1 - s.writing] == 0
    case Refresh(_, list) => list == 1 - s.writing && s.sizes[list] > 0
    case Deliver(_, list, size, next) => list == 1 - s.writing && s.sizes[list] == size && 0 <= next <= size
    case _ => s.sizes[1 - s.writing] == 0
  }

  predicate InsideLock(w: Writer) {
    w.Entered? || w.Sized? || w.Stored? || w.Counted? || w.Delivered?
  }

  predicate WriterOk(s: State, id: int)
    requires Shape(s)
  {
    && (InsideLock(At(s, id)) <==> s.lock == Some(id))
    && match At(s, id)
       case Sized(_, list, size) => s.toList && list == s.writing && size == s.sizes[list]
       case Stored(item, list, size) =>
         s.toList && list == s.writing && size == s.sizes[list] + 1 <= MAX_LIST_SIZE && s.lists[list][size - 1] == item
       case _ => true
  }

  ghost predicate Someone(s: State, w: Writer) {
    exists id :: id in s.writers && s.writers[id] == w
  }

  /** A message in the list being written is on its way to being seen. */
  ghost predicate WillBeSeen(s: State) {
    || s.flagged || Someone(s, Counted) || Someone(s, Unlocked)
    || s.logger.CheckDie? || s.logger.ReadSize? || s.logger.Swap? || s.logger.Reset?
  }

  /** A raised flag means that the logger is, or is about to be, awake. */
  ghost predicate WillBeAwake(s: State) {
    || s.wakeup || Someone(s, Signalling)
    || !(s.logger.Starting? || s.logger.Waiting? || s.logger.Sleep?)
  }

  ghost predicate Signalled(s: State)
    requires Shape(s)
  {
    && (s.sizes[s.writing] > 0 ==> WillBeSeen(s))
    && (s.flagged ==> WillBeAwake(s))
  }

  predicate InCleanup(l: Logger) {
    || l.Done?
    || ((l.ReadSize? || l.Swap? || l.Refresh? || l.Deliver?) && l.caller != Pump)
  }

  predicate CleanupOk(s: State)
    requires Shape(s)
  {
    && (InCleanup(s.logger) ==> !s.toList)
    && (s.logger.Starting? ==> !s.toList && s.sizes[s.writing] == 0)
    && ((s.logger.Refresh? || s.logger.Deliver?) && s.logger.caller != Pump ==> s.sizes[s.writing] == 0)
    && (s.logger.Done? || s.logger == ReadSize(CleanupSecond) ==> s.sizes[s.writing] == 0)
    && (s.logger.Swap? || s.logger.Refresh? || s.logger.Deliver? ==> s.logger.caller != CleanupSecond)
  }

  ghost predicate Inv(s: State) {
    && Shape(s) && LoggerOk(s) && CleanupOk(s)
    && (forall id :: WriterOk(s, id))
    && s.accepted == s.delivered + Pending(s)
    && Signalled(s)
  }

  lemma OthersStay(s: State, t: State, id: int)
    requires t.writers.Keys == s.writers.Keys + {id}
    requires forall other :: other in s.writers && other != id ==> t.writers[other] == s.writers[other]
    ensures forall other :: other != id ==> At(t, other) == At(s, other)
    ensures forall w :: Someone(s, w) && At(s, id) != w ==> Someone(t, w)
    ensures Someone(t, At(t, id))
  {
    assert id in t.writers && t.writers[id] == At(t, id);
    forall w | Someone(s, w) && At(s, id) != w
      ensures Someone(t, w)
    {
      var other :| other in s.writers && s.writers[other] == w;
      assert other in t.writers && t.writers[other] == w;
    }
  }

  lemma EnterKeeps(s: State, id: int, item: Item)
    requires Inv(s) && Enabled(s, Enter(id, item))
    ensures Inv(Apply(s, Enter(id, item)))
  {
    var t := Apply(s, Enter(id, item));
    OthersStay(s, t, id);
    forall other
      ensures WriterOk(t, other)
    {
      assert WriterOk(s, other);
    }
  }

  lemma WriterKeepsSignals(s: State, id: int)
    requires Inv(s) && At(s, id) != Idle
    ensures Signalled(WriterNext(s, id))
  {
    var t := WriterNext(s, id);
    OthersStay(s, t, id);
    assert WriterOk(s, id);
  }

  lemma WriterKeepsOthers(s: State, id: int, other: int)
    requires Inv(s) && At(s, id) != Idle
    ensures WriterOk(WriterNext(s, id), other)
  {
    assert WriterOk(s, id) && WriterOk(s, other);
  }

  /** A writer touches only the list being written, beyond the counted items. */
  lemma WriterWrites(s: State, id: int)
    requires Inv(s) && At(s, id) != Idle
    ensures var t, w := WriterNext(s, id), s.writing;
            var n: int := s.sizes[w];
            && t.logger == s.logger && t.writing == w && t.toList == s.toList && (At(s, id).Stored? ==> s.toList)
            && t.lists[1 - w] == s.lists[1 - w] && t.sizes[1 - w] == s.sizes[1 - w]
            && t.lists[w][..s.sizes[w]] == s.lists[w][..s.sizes[w]]
            && (if At(s, id).Stored? then t.sizes[w] == n + 1 && t.lists[w][n] == At(s, id).item
                else t.sizes[w] == s.sizes[w])
  {
    hide Signalled, CleanupOk, LoggerOk, Pending;
    assert WriterOk(s, id);
  }

  lemma WriterKeepsLogger(s: State, id: int)
    requires Inv(s) && At(s, id) != Idle
    ensures var t := WriterNext(s, id); LoggerOk(t) && CleanupOk(t)
  {
    hide Inv, Signalled, Pending, WriterOk, WriterNext;
    Parts(s);
    WriterWrites(s, id);
  }

  lemma WriterKeepsPending(s: State, id: int)
    requires Inv(s) && At(s, id) != Idle && LoggerOk(WriterNext(s, id))
    ensures var t := WriterNext(s, id);
            if At(s, id).Stored? then Pending(t) == Pending(s) + [At(s, id).item] else Pending(t) == Pending(s)
  {
    hide Signalled, CleanupOk, WriterOk, WriterNext;
    var t, w := WriterNext(s, id), s.writing;
    WriterWrites(s, id);
    assert InWork(t) == InWork(s);
    if At(s, id).Stored? {
      assert t.lists[w][..t.sizes[w]] == s.lists[w][..s.sizes[w]] + [At(s, id).item];
    }
  }

  lemma WriterKeepsHistory(s: State, id: int)
    requires Shape(s) && At(s, id) != Idle
    ensures var t := WriterNext(s, id);
            t.delivered == s.delivered
            && t.accepted == if At(s, id).Stored? then s.accepted + [At(s, id).item] else s.accepted
  {
  }

  lemma WriterKeeps(s: State, id: int)
    requires Inv(s) && At(s, id) != Idle
    ensures Inv(WriterNext(s, id))
  {
    hide WriterNext, Signalled, Pending, WriterOk, LoggerOk, CleanupOk;
    WriterKeepsSignals(s, id);
    WriterKeepsLogger(s, id);
    WriterKeepsPending(s, id);
    WriterKeepsHistory(s, id);
    forall other
      ensures WriterOk(WriterNext(s, id), other)
    {
      WriterKeepsOthers(s, id, other);
    }
  }

  lemma LoggerKeepsLogger(s: State)
    requires Inv(s) && s.logger != Done && (Enabled(s, LoggerStep) || s.logger == Waiting)
    ensures LoggerOk(LoggerNext(s))
  {
    hide Inv, LoggerOk, CleanupOk, Enabled;
    assert Shape(s) && LoggerOk(s) && CleanupOk(s) by { Parts(s); }
    if s.logger.Swap? || s.logger.Refresh? || s.logger.Deliver? {
      ListKeepsLogger(s);
    } else {
      TurnKeepsLogger(s);
    }
  }

  lemma ListKeepsLogger(s: State)
    requires Shape(s) && LoggerOk(s) && (s.logger.Swap? || s.logger.Refresh? || s.logger.Deliver?)
    ensures LoggerOk(LoggerNext(s))
  {
  }

  lemma TurnKeepsLogger(s: State)
    requires Shape(s) && LoggerOk(s) && s.logger != Done && !s.logger.Swap? && !s.logger.Refresh? && !s.logger.Deliver?
    ensures LoggerOk(LoggerNext(s))
  {
  }

  lemma LoggerKeepsCleanup(s: State)
    requires Inv(s) && s.logger != Done && (Enabled(s, LoggerStep) || s.logger == Waiting)
    ensures CleanupOk(LoggerNext(s))
  {
    hide Signalled, Pending, WriterOk, Inv;
    assert Shape(s) && LoggerOk(s) && CleanupOk(s) by { Parts(s); }
  }

  lemma Parts(s: State)
    requires Inv(s)
    ensures Shape(s) && LoggerOk(s) && CleanupOk(s) && Signalled(s)
  {
  }

  lemma LoggerKeepsPending(s: State)
    requires Inv(s) && s.logger != Done && (Enabled(s, LoggerStep) || s.logger == Waiting) && LoggerOk(LoggerNext(s))
    ensures var t := LoggerNext(s); t.accepted == s.accepted && t.delivered + Pending(t) == s.delivered + Pending(s)
  {
    hide Signalled, WriterOk, CleanupOk;
    var t := LoggerNext(s);
    if s.logger.Deliver? {
      DeliverKeepsPending(s);
    } else if s.logger.Swap? {
      assert s.lists[s.writing][..s.sizes[s.writing]] == InWork(t);
      assert t.lists[t.writing][..t.sizes[t.writing]] == [];
    } else {
      assert InWork(t) == InWork(s);
    }
  }

  lemma DeliverKeepsPending(s: State)
    requires Shape(s) && LoggerOk(s) && s.logger.Deliver? && LoggerOk(LoggerNext(s))
    ensures var t := LoggerNext(s); t.delivered + Pending(t) == s.delivered + Pending(s)
  {
    var t := LoggerNext(s);
    var rest := s.lists[s.writing][..s.sizes[s.writing]];
    assert Pending(s) == InWork(s) + rest;
    assert Pending(t) == InWork(t) + rest;
    hide Pending;
    DeliverShortens(s);
    if s.logger.next < s.logger.size {
      hide InWork, LoggerNext;
      var item := [s.lists[s.logger.list][s.logger.next]];
      Regroup(s.delivered, item, InWork(t) + rest);
      Regroup(item, InWork(t), rest);
    }
  }

  lemma DeliverShortens(s: State)
    requires Shape(s) && LoggerOk(s) && s.logger.Deliver? && LoggerOk(LoggerNext(s))
    ensures var t := LoggerNext(s);
            if s.logger.next < s.logger.size then
              var item := s.lists[s.logger.list][s.logger.next];
              t.delivered == s.delivered + [item] && InWork(s) == [item] + InWork(t)
            else t.delivered == s.delivered && InWork(s) == InWork(t) == []
  {
  }

  /** The logger changes what a writer relies on only while no writer holds the lock. */
  lemma LoggerTouches(s: State)
    requires Shape(s) && LoggerOk(s) && s.logger != Done && (Enabled(s, LoggerStep) || s.logger == Waiting)
    ensures var t := LoggerNext(s);
            s.lock != None ==> t.writing == s.writing && t.toList == s.toList && t.sizes[t.writing] == s.sizes[t.writing]
  {
    if s.logger.Deliver? {
      assert s.logger.list != s.writing;
    } else if s.logger.Starting? || s.logger.Swap? || s.logger.Reset? {
      assert s.lock == None;
    } else {
      assert LoggerNext(s).writing == s.writing;
    }
  }

  lemma LoggerKeepsWriter(s: State, id: int)
    requires Inv(s) && s.logger != Done && (Enabled(s, LoggerStep) || s.logger == Waiting)
    ensures WriterOk(LoggerNext(s), id)
  {
    hide Signalled, Pending, CleanupOk, LoggerNext, LoggerOk, Enabled;
    LoggerTouches(s);
    assert WriterOk(s, id);
  }

  lemma LoggerKeepsSignals(s: State)
    requires Inv(s) && s.logger != Done && (Enabled(s, LoggerStep) || s.logger == Waiting)
    ensures Signalled(LoggerNext(s))
  {
    hide WriterOk, Pending, Inv;
    assert Shape(s) && LoggerOk(s) && CleanupOk(s) && Signalled(s) by { Parts(s); }
    SomeoneStays(s, LoggerNext(s));
    hide Someone;
  }

  lemma SomeoneStays(s: State, t: State)
    requires s.writers == t.writers
    ensures forall w :: Someone(s, w) ==> Someone(t, w)
  {
  }

  lemma LoggerKeeps(s: State)
    requires Inv(s) && s.logger != Done && (Enabled(s, LoggerStep) || s.logger == Waiting)
    ensures Inv(LoggerNext(s))
  {
    hide LoggerNext, Signalled, Pending, WriterOk, LoggerOk, CleanupOk;
    LoggerKeepsLogger(s);
    LoggerKeepsCleanup(s);
    LoggerKeepsPending(s);
    LoggerKeepsSignals(s);
    forall id
      ensures WriterOk(LoggerNext(s), id)
    {
      LoggerKeepsWriter(s, id);
    }
  }

  lemma ApplyKeeps(s: State, e: Event)
    requires Inv(s) && Enabled(s, e)
    ensures Inv(Apply(s, e))
  {
    match e
    case Enter(id, item) => EnterKeeps(s, id, item);
    case WriterStep(id) => WriterKeeps(s, id);
    case LoggerStep => LoggerKeeps(s);
    case SpuriousWake => LoggerKeeps(s);
    case WaitFails => EnvironmentKeeps(s, e);
    case SetDie => EnvironmentKeeps(s, e);
    case SetWakeup => EnvironmentKeeps(s, e);
  }

  lemma EnvironmentKeeps(s: State, e: Event)
    requires Inv(s) && Enabled(s, e) && (e.WaitFails? || e.SetDie? || e.SetWakeup?)
    ensures Inv(Apply(s, e))
  {
    var t := Apply(s, e);
    assert forall w :: Someone(s, w) ==> Someone(t, w);
    forall id
      ensures WriterOk(t, id)
    {
      assert WriterOk(s, id);
    }
  }

  // -------------------------------------------------------------------- runs

  /** These steps, each enabled when it is taken, lead from s to t. */
  predicate Leads(s: State, run: seq<Event>, t: State)
    requires Shape(s)
    decreases |run|
  {
    if run == [] then s == t
    else Enabled(s, run[0]) && Leads(Apply(s, run[0]), run[1..], t)
  }

  lemma LeadsBefore(s: State, e: Event, run: seq<Event>, t: State)
    requires Shape(s) && Enabled(s, e) && Leads(Apply(s, e), run, t)
    ensures Leads(s, [e] + run, t)
  {
    assert ([e] + run)[1..] == run;
  }

  lemma {:induction false} RunKeeps(s: State, run: seq<Event>, t: State)
    requires Inv(s) && Leads(s, run, t)
    ensures Inv(t)
    decreases |run|
  {
    if run != [] {
      ApplyKeeps(s, run[0]);
      RunKeeps(Apply(s, run[0]), run[1..], t);
    }
  }

  lemma InitialInv(s: State)
    requires Initial(s)
    ensures Inv(s)
  {
    assert forall id :: WriterOk(s, id);
  }

  /** In every reachable state the logger has delivered a prefix of the accepted messages, and
      the rest is in the lists. */
  lemma DeliveredInOrder(s: State, run: seq<Event>, t: State)
    requires Initial(s) && Leads(s, run, t)
    ensures t.delivered <= t.accepted && Inv(t) && t.accepted == t.delivered + Pending(t)
  {
    InitialInv(s);
    RunKeeps(s, run, t);
  }

  /** Once Cleanup has returned every accepted message has been delivered. */
  lemma CleanupDeliversAll(s: State, run: seq<Event>, t: State)
    requires Initial(s) && Leads(s, run, t) && t.logger == Done
    ensures t.delivered == t.accepted
  {
    InitialInv(s);
    RunKeeps(s, run, t);
    assert Pending(t) == [];
  }

  /** A logger that waits, or is about to, with messages pending has a wakeup or will be given
      one: some writer has already decided to signal, or will find the flag clear and so decide. */
  lemma NoLostWakeup(s: State, run: seq<Event>, t: State)
    requires Initial(s) && Leads(s, run, t)
    requires (t.logger == Waiting || t.logger == Sleep) && t.accepted != t.delivered
    ensures t.wakeup || Someone(t, Signalling) || (!t.flagged && (Someone(t, Counted) || Someone(t, Unlocked)))
  {
    InitialInv(s);
    RunKeeps(s, run, t);
    assert Pending(t) != [];
  }

  /** A message is dropped only when a full list of messages is pending, and only the message
      that fills the list has its source replaced. */
  lemma DroppedOnlyWhenFull(s: State, id: int)
    requires Inv(s) && At(s, id).Sized?
    ensures At(WriterNext(s, id), id) == Idle <==> s.sizes[s.writing] == MAX_LIST_SIZE
    ensures At(WriterNext(s, id), id) == Idle ==> |Pending(s)| >= MAX_LIST_SIZE
    ensures At(WriterNext(s, id), id) != Idle ==>
              At(WriterNext(s, id), id).item ==
              if s.sizes[s.writing] == MAX_LIST_SIZE - 1 then At(s, id).item.(source := "LOG OVERFLOW") else At(s, id).item
  {
    assert WriterOk(s, id);
  }

  // ---------------------------------------------------------------- progress

  ghost predicate Quiet(s: State) {
    forall id :: id in s.writers ==> s.writers[id] == Idle
  }

  function Stage(l: Logger): nat {
    match l
    case Starting => 11
    case Done => 11
    case Deliver(_, _, size, next) => if next < size then 0 else 10
    case Exchange => 9
    case Sleep => 8
    case Waiting => 7
    case Woken => 6
    case CheckDie => 5
    case Reset => 4
    case ReadSize(_) => 3
    case Swap(_, _) => 2
    case Refresh(_, _) => 1
  }

  /** While no writer is busy and messages are pending, the logger is never blocked and comes
      closer to delivering. */
  lemma LoggerAdvances(s: State)
    requires Inv(s) && Quiet(s) && Pending(s) != []
    ensures Enabled(s, LoggerStep) && Inv(LoggerNext(s)) && Quiet(LoggerNext(s))
    ensures LoggerNext(s).accepted == s.accepted
    ensures |Pending(LoggerNext(s))| < |Pending(s)|
            || (|Pending(LoggerNext(s))| == |Pending(s)| && Stage(LoggerNext(s).logger) < Stage(s.logger))
  {
    QuietLogger(s);
    LoggerKeeps(s);
    LoggerKeepsPending(s);
    LoggerStage(s);
  }

  lemma QuietLogger(s: State)
    requires Inv(s) && Quiet(s) && Pending(s) != []
    ensures Enabled(s, LoggerStep)
    ensures s.logger == Exchange || s.logger == Sleep ==> s.flagged
  {
    assert s.lock.Some? ==> WriterOk(s, s.lock.value);
  }

  lemma LoggerStage(s: State)
    requires Inv(s) && Pending(s) != [] && Enabled(s, LoggerStep) && (s.logger == Exchange ==> s.flagged)
    ensures if s.logger.Deliver? && s.logger.next < s.logger.size then |LoggerNext(s).delivered| > |s.delivered|
            else LoggerNext(s).delivered == s.delivered && Stage(LoggerNext(s).logger) < Stage(s.logger)
  {
    hide WriterOk, Signalled, Inv;
    assert Shape(s) && LoggerOk(s) && CleanupOk(s) by { Parts(s); }
  }

  /** If no writer is busy, the logger's own steps deliver everything accepted. */
  lemma {:induction false} LoggerDrains(s: State) returns (run: seq<Event>, t: State)
    requires Inv(s) && Quiet(s)
    ensures (forall e :: e in run ==> e == LoggerStep) && Leads(s, run, t)
    ensures t.delivered == t.accepted == s.accepted
    decreases |Pending(s)|, Stage(s.logger)
  {
    if Pending(s) == [] {
      run, t := [], s;
    } else {
      LoggerAdvances(s);
      run, t := LoggerDrains(LoggerNext(s));
      assert ([LoggerStep] + run)[1..] == run;
      run := [LoggerStep] + run;
    }
  }

  /** How far a writer is from being idle. */
  function WriterStage(w: Writer): nat {
    match w
    case Idle => 0
    case Signalling => 1
    case Unlocked => 2
    case Delivered => 3
    case Counted => 3
    case Stored(_, _, _) => 4
    case Sized(_, _, _) => 5
    case Entered(_) => 6
  }

  /** A writer is never blocked once it has the lock: its own steps lead to its end. */
  lemma {:induction false} WriterFinishes(s: State, id: int) returns (run: seq<Event>, t: State)
    requires Inv(s)
    ensures (forall e :: e in run ==> e == WriterStep(id)) && Leads(s, run, t)
    ensures Inv(t) && At(t, id) == Idle && s.accepted <= t.accepted
    ensures forall other :: other != id ==> At(t, other) == At(s, other)
    decreases WriterStage(At(s, id))
  {
    if At(s, id) == Idle {
      run, t := [], s;
    } else {
      hide Inv, WriterNext, At, WriterStage, Leads;
      WriterKeeps(s, id);
      WriterAdvances(s, id);
      run, t := WriterFinishes(WriterNext(s, id), id);
      LeadsBefore(s, WriterStep(id), run, t);
      run := [WriterStep(id)] + run;
    }
  }

  lemma WriterAdvances(s: State, id: int)
    requires Inv(s) && At(s, id) != Idle
    ensures var t := WriterNext(s, id);
            && WriterStage(At(t, id)) < WriterStage(At(s, id)) && s.accepted <= t.accepted
            && forall other :: other != id ==> At(t, other) == At(s, other)
  {
    hide Inv, LoggerOk, CleanupOk, Signalled, WriterOk, Someone;
    Parts(s);
    WriterKeepsHistory(s, id);
  }

  lemma {:induction false} LeadsOn(s: State, run: seq<Event>, t: State, run': seq<Event>, t': State)
    requires Shape(s) && Shape(t) && Leads(s, run, t) && Leads(t, run', t')
    ensures Leads(s, run + run', t')
    decreases |run|
  {
    if run == [] {
      assert run + run' == run';
    } else {
      LeadsOn(Apply(s, run[0]), run[1..], t, run', t');
      assert (run + run')[1..] == run[1..] + run';
    }
  }

  lemma {:induction false} WritersFinish(s: State, busy: set<int>) returns (run: seq<Event>, t: State)
    requires Inv(s) && forall id :: At(s, id) != Idle ==> id in busy
    ensures (forall e :: e in run ==> e.WriterStep?) && Leads(s, run, t)
    ensures Inv(t) && Quiet(t) && s.accepted <= t.accepted
    decreases busy
  {
    if forall id :: At(s, id) == Idle {
      run, t := [], s;
      assert forall id :: id in s.writers ==> At(s, id) == Idle;
    } else {
      var id :| At(s, id) != Idle;
      var first, s' := WriterFinishes(s, id);
      var rest;
      rest, t := WritersFinish(s', busy - {id});
      LeadsOn(s, first, s', rest, t);
      run := first + rest;
    }
  }

  /** From every reachable state, wherever the threads are, the steps of the busy writers and
      then of the logger, without any new message, deliver everything accepted. */
  lemma NeverStuck(s: State, run: seq<Event>, t: State) returns (more: seq<Event>, end: State)
    requires Initial(s) && Leads(s, run, t)
    ensures (forall e :: e in more ==> e.WriterStep? || e == LoggerStep) && Shape(t) && Leads(t, more, end)
    ensures t.accepted <= end.accepted == end.delivered
  {
    InitialInv(s);
    RunKeeps(s, run, t);
    var first, quiet := WritersFinish(t, t.writers.Keys);
    var rest;
    rest, end := LoggerDrains(quiet);
    LeadsOn(t, first, quiet, rest, end);
    more := first + rest;
  }
  // -------------------------------------------------------------------- rest

  /** Whether messages are listed: from when the logger has set the frontend until it resets it. */
  lemma {:induction false} ListedWhile(s: State, run: seq<Event>, t: State)
    requires Shape(s) && Leads(s, run, t) && (s.toList <==> s.logger != Starting && !InCleanup(s.logger))
    ensures t.toList <==> t.logger != Starting && !InCleanup(t.logger)
    decreases |run|
  {
    if run != [] {
      hide Enabled, Apply;
      StepLists(s, run[0]);
      ListedWhile(Apply(s, run[0]), run[1..], t);
    }
  }

  lemma StepLists(s: State, e: Event)
    requires Shape(s) && Enabled(s, e) && (s.toList <==> s.logger != Starting && !InCleanup(s.logger))
    ensures var t := Apply(s, e); t.toList <==> t.logger != Starting && !InCleanup(t.logger)
  {
    if e.WriterStep? {
      WriterLeavesLogger(s, e.id);
    }
  }

  /** In every reachable state messages are listed unless the logger has not started or is in
      Cleanup. */
  lemma FrontendIsSet(s: State, run: seq<Event>, t: State)
    requires Initial(s) && Leads(s, run, t)
    ensures t.toList <==> t.logger != Starting && !InCleanup(t.logger)
  {
    ListedWhile(s, run, t);
  }

  predicate InTurn(l: Logger) {
    l.CheckDie? || l.ReadSize? || l.Swap? || l.Refresh? || l.Deliver? || l.Exchange?
  }

  /** How many turns the logger may still make. */
  function TurnsLeft(s: State): nat {
    (if s.wakeup then 2 else 0) + if s.flagged && InTurn(s.logger) then 1 else 0
  }

  function ToWaiting(l: Logger): nat {
    match l
    case Woken => 9
    case CheckDie => 8
    case ReadSize(_) => 7
    case Swap(_, _) => 6
    case Refresh(_, _) => 5
    case Deliver(_, _, _, _) => 4
    case Exchange => 3
    case Sleep => 2
    case Starting => 1
    case _ => 0
  }

  /** The logger runs, and has not been told to die. */
  predicate Running(s: State) {
    !s.die && !CleaningUp(s.logger)
  }

  lemma LoggerCalms(s: State)
    requires Inv(s) && Quiet(s) && Running(s) && !(s.logger == Waiting && !s.wakeup)
    ensures var t := LoggerNext(s);
            && Enabled(s, LoggerStep) && Running(t) && 0 <= Undelivered(t.logger)
            && TurnsLeft(t) <= TurnsLeft(s)
            && (TurnsLeft(t) < TurnsLeft(s) || ToWaiting(t.logger) < ToWaiting(s.logger)
                || (ToWaiting(t.logger) == ToWaiting(s.logger) && Undelivered(t.logger) < Undelivered(s.logger)))
  {
    hide Signalled, Pending, WriterOk, Inv;
    assert s.lock == None by { QuietUnlocked(s); }
    assert Shape(s) && LoggerOk(s) && CleanupOk(s) by { Parts(s); }
  }

  /** While nobody writes, the logger comes to wait, without a wakeup given or a flag raised, and
      with everything delivered. */
  lemma {:induction false} LoggerSettles(s: State) returns (run: seq<Event>, t: State)
    requires Inv(s) && Quiet(s) && Running(s)
    ensures (forall e :: e in run ==> e == LoggerStep) && Leads(s, run, t) && Inv(t)
    ensures t.logger == Waiting && !t.wakeup && !t.flagged && t.delivered == t.accepted == s.accepted
    decreases TurnsLeft(s), ToWaiting(s.logger), Undelivered(s.logger)
  {
    if s.logger == Waiting && !s.wakeup {
      run, t := [], s;
      AtRest(s);
    } else {
      hide Inv, LoggerNext;
      LoggerCalms(s);
      LoggerKeeps(s);
      run, t := LoggerSettles(LoggerNext(s));
      assert ([LoggerStep] + run)[1..] == run;
      run := [LoggerStep] + run;
    }
  }

  lemma AtRest(s: State)
    requires Inv(s) && Quiet(s) && s.logger == Waiting && !s.wakeup
    ensures !s.flagged && s.delivered == s.accepted
  {
    assert Pending(s) == s.lists[s.writing][..s.sizes[s.writing]];
  }

  /** The steps to the next wait, if no flag is raised on the way. */
  function StepsToWait(s: State): int
    requires Shape(s)
  {
    match s.logger
    case Woken => 5 + ListSteps(s.sizes[s.writing])
    case CheckDie => 4 + ListSteps(s.sizes[s.writing])
    case ReadSize(_) => 3 + ListSteps(s.sizes[s.writing])
    case Swap(_, list) => 2 + ListSteps(s.sizes[list])
    case Refresh(_, list) => 1 + ListSteps(s.sizes[list])
    case Deliver(_, _, size, next) => size - next + 3
    case Exchange => 2
    case Sleep => 1
    case _ => 0
  }

  /** The steps for a list, beyond finding it empty. */
  function ListSteps(size: int): int {
    if size == 0 then 0 else size + 3
  }

  lemma OneStepNearer(s: State)
    requires Inv(s) && Quiet(s) && Running(s) && s.logger != Waiting && s.logger != Starting && (s.flagged ==> s.logger == Woken)
    ensures Enabled(s, LoggerStep) && Running(LoggerNext(s)) && LoggerNext(s).logger != Starting && !LoggerNext(s).flagged
    ensures LoggerNext(s).wakeup == s.wakeup && StepsToWait(LoggerNext(s)) == StepsToWait(s) - 1 >= 0
  {
    hide Signalled, Pending, WriterOk, Inv;
    assert s.lock == None by { QuietUnlocked(s); }
    assert Shape(s) && LoggerOk(s) && CleanupOk(s) by { Parts(s); }
  }

  lemma {:induction false} StepsToNextWait(s: State) returns (run: seq<Event>, t: State)
    requires Inv(s) && Quiet(s) && Running(s) && s.logger != Starting && (s.flagged ==> s.logger == Woken || s.logger == Waiting)
    ensures (forall e :: e in run ==> e == LoggerStep) && Leads(s, run, t) && t.logger == Waiting
    ensures |run| == StepsToWait(s)
    decreases StepsToWait(s)
  {
    if s.logger == Waiting {
      run, t := [], s;
    } else {
      hide Inv, LoggerNext, StepsToWait;
      OneStepNearer(s);
      LoggerKeeps(s);
      run, t := StepsToNextWait(LoggerNext(s));
      assert ([LoggerStep] + run)[1..] == run;
      run := [LoggerStep] + run;
    }
  }

  /** A wakeup costs the logger one turn: one look at the list if that is empty, and otherwise one
      pass over it. */
  lemma OneTurnEach(s: State) returns (run: seq<Event>, t: State)
    requires Inv(s) && Quiet(s) && Running(s) && s.logger == Waiting && s.wakeup
    ensures (forall e :: e in run ==> e == LoggerStep) && Leads(s, run, t) && t.logger == Waiting
    ensures |run| == 6 + if Pending(s) == [] then 0 else |Pending(s)| + 3
  {
    LoggerKeeps(s);
    var rest;
    rest, t := StepsToNextWait(LoggerNext(s));
    run := [LoggerStep] + rest;
    assert run[1..] == rest;
  }

  // ---------------------------------------------------------------- shutdown

  predicate CleaningUp(l: Logger) {
    l == Reset || InCleanup(l)
  }

  lemma StepHasCause(s: State, e: Event)
    requires Shape(s) && Enabled(s, e)
    ensures CleaningUp(Apply(s, e).logger) ==> CleaningUp(s.logger) || s.die || e == WaitFails
    ensures Apply(s, e).die == (s.die || e == SetDie)
  {
    hide WriterNext, LoggerNext;
    match e
    case WriterStep(id) => WriterLeavesLogger(s, id);
    case LoggerStep => LoggerHasCause(s);
    case SpuriousWake => LoggerHasCause(s);
    case _ =>
  }

  lemma WriterLeavesLogger(s: State, id: int)
    requires Shape(s) && At(s, id) != Idle
    ensures WriterNext(s, id).logger == s.logger && WriterNext(s, id).die == s.die
  {
  }

  lemma LoggerHasCause(s: State)
    requires Shape(s) && s.logger != Done
    ensures LoggerNext(s).die == s.die && (CleaningUp(LoggerNext(s).logger) ==> CleaningUp(s.logger) || s.die)
  {
  }

  lemma {:induction false} CleanupHasCause(s: State, run: seq<Event>, t: State)
    requires Shape(s) && Leads(s, run, t)
    ensures CleaningUp(t.logger) ==> CleaningUp(s.logger) || t.die || WaitFails in run
    ensures (s.die ==> t.die) && (t.die ==> s.die || SetDie in run)
    decreases |run|
  {
    if run != [] {
      hide CleaningUp, Enabled, Apply;
      StepHasCause(s, run[0]);
      CleanupHasCause(Apply(s, run[0]), run[1..], t);
      assert run == [run[0]] + run[1..];
    }
  }

  /** The logger takes itself out of the output flow only if it was told to die, or if waiting for
      the wakeup failed. */
  lemma CleansUpOnlyWhenTold(s: State, run: seq<Event>, t: State)
    requires Initial(s) && Leads(s, run, t) && CleaningUp(t.logger)
    ensures t.die || WaitFails in run
    ensures t.die ==> SetDie in run
  {
    CleanupHasCause(s, run, t);
  }

  /** How many places the logger still passes on its way out, once it is told. */
  function WayOut(l: Logger): nat {
    match l
    case Starting => 20
    case ReadSize(caller) => Base(caller) + 4
    case Swap(caller, _) => Base(caller) + 3
    case Refresh(caller, _) => Base(caller) + 2
    case Deliver(caller, _, _, _) => Base(caller) + 1
    case Exchange => 15
    case Sleep => 14
    case Waiting => 13
    case Woken => 12
    case CheckDie => 11
    case Reset => 10
    case Done => 0
  }

  function Base(caller: Caller): nat {
    match caller
    case Pump => 15
    case CleanupFirst => 5
    case CleanupSecond => 0
  }

  function Undelivered(l: Logger): int {
    if l.Deliver? then l.size - l.next else 0
  }

  /** The logger is on its way out, or will be at its next look. */
  predicate ToldToEnd(s: State) {
    CleaningUp(s.logger) || (s.die && (s.wakeup || s.logger == Woken || s.logger == CheckDie))
  }

  lemma LoggerLeaves(s: State)
    requires Inv(s) && Quiet(s) && ToldToEnd(s) && s.logger != Done
    ensures Enabled(s, LoggerStep) && ToldToEnd(LoggerNext(s)) && 0 <= Undelivered(LoggerNext(s).logger)
    ensures WayOut(LoggerNext(s).logger) < WayOut(s.logger)
            || (WayOut(LoggerNext(s).logger) == WayOut(s.logger) && Undelivered(LoggerNext(s).logger) < Undelivered(s.logger))
  {
    hide Signalled, Pending, WriterOk, Inv;
    assert s.lock == None by { QuietUnlocked(s); }
    assert Shape(s) && LoggerOk(s) && CleanupOk(s) by { Parts(s); }
  }

  lemma QuietUnlocked(s: State)
    requires Inv(s) && Quiet(s)
    ensures s.lock == None
  {
    assert s.lock.Some? ==> WriterOk(s, s.lock.value);
  }

  lemma {:induction false} LoggerEnds(s: State) returns (run: seq<Event>, t: State)
    requires Inv(s) && Quiet(s) && ToldToEnd(s)
    ensures (forall e :: e in run ==> e == LoggerStep) && Leads(s, run, t) && Inv(t)
    ensures t.logger == Done && t.accepted == s.accepted
    decreases WayOut(s.logger), Undelivered(s.logger)
  {
    if s.logger == Done {
      run, t := [], s;
    } else {
      hide Inv, LoggerNext;
      LoggerLeaves(s);
      LoggerKeeps(s);
      run, t := LoggerEnds(LoggerNext(s));
      assert ([LoggerStep] + run)[1..] == run;
      run := [LoggerStep] + run;
    }
  }

  /** From every reachable state, once the logger is told to die, the steps of the busy writers,
      the wakeup, and the logger's own steps end it, with everything delivered and the frontend
      reset. */
  lemma DieEnds(s: State, run: seq<Event>, t: State) returns (more: seq<Event>, end: State)
    requires Initial(s) && Leads(s, run, t)
    ensures forall e :: e in more ==> e.WriterStep? || e == SetWakeup || e == LoggerStep
    ensures Shape(t) && Leads(t, [SetDie] + more, end)
    ensures end.logger == Done && !end.toList && t.accepted <= end.accepted == end.delivered
  {
    InitialInv(s);
    RunKeeps(s, run, t);
    ApplyKeeps(t, SetDie);
    more, end := DieLeads(Apply(t, SetDie));
    LeadsBefore(t, SetDie, more, end);
  }

  lemma DieLeads(t: State) returns (more: seq<Event>, end: State)
    requires Inv(t) && t.die
    ensures forall e :: e in more ==> e.WriterStep? || e == SetWakeup || e == LoggerStep
    ensures Leads(t, more, end)
    ensures end.logger == Done && !end.toList && t.accepted <= end.accepted == end.delivered
  {
    hide Inv, Signalled, WriterOk;
    assert Shape(t) by { Parts(t); }
    var first, quiet := WritersFinish(t, t.writers.Keys);
    CleanupHasCause(t, first, quiet);
    var woken := Apply(quiet, SetWakeup);
    ApplyKeeps(quiet, SetWakeup);
    var rest;
    rest, end := LoggerEnds(woken);
    assert ([SetWakeup] + rest)[1..] == rest;
    LeadsOn(t, first, quiet, [SetWakeup] + rest, end);
    more := first + ([SetWakeup] + rest);
    AtEnd(end);
  }

  lemma AtEnd(s: State)
    requires Inv(s) && s.logger == Done
    ensures !s.toList && s.delivered == s.accepted
  {
    assert Pending(s) == [];
  }

  // ---------------------------------------------------------------- messages

  /** What is logged, whatever the source is changed to. */
  function Bodies(items: seq<Item>): multiset<(int, string)> {
    if items == [] then multiset{}
    else Bodies(items[..|items| - 1]) + multiset{Body(items[|items| - 1])}
  }

  function Body(item: Item): (int, string) {
    (item.severity, item.msg)
  }

  lemma BodiesAppend(items: seq<Item>, item: Item)
    ensures Bodies(items + [item]) == Bodies(items) + multiset{Body(item)}
  {
    assert (items + [item])[..|items|] == items;
  }

  /** The message that the writer inside the lock has not yet disposed of. */
  function InHand(s: State): multiset<(int, string)> {
    if s.lock.None? then multiset{}
    else
      match At(s, s.lock.value)
      case Entered(item) => multiset{Body(item)}
      case Sized(item, _, _) => multiset{Body(item)}
      case Stored(item, _, _) => multiset{Body(item)}
      case _ => multiset{}
  }

  function Kept(s: State): multiset<(int, string)> {
    Bodies(s.accepted) + Bodies(s.direct) + InHand(s)
  }

  /** What one step of a run logs, and what it drops: a writer that has read the size of the
      list and is idle after its next step. */
  function LoggedBy(e: Event): multiset<(int, string)> {
    if e.Enter? then multiset{Body(e.item)} else multiset{}
  }

  function DroppedBy(s: State, e: Event): multiset<(int, string)>
    requires Shape(s) && Enabled(s, e)
  {
    if e.WriterStep? && At(s, e.id).Sized? && At(Apply(s, e), e.id) == Idle then multiset{Body(At(s, e.id).item)}
    else multiset{}
  }

  function Logged(run: seq<Event>): multiset<(int, string)> {
    if run == [] then multiset{} else LoggedBy(run[0]) + Logged(run[1..])
  }

  function Dropped(s: State, run: seq<Event>, t: State): multiset<(int, string)>
    requires Shape(s) && Leads(s, run, t)
    decreases |run|
  {
    if run == [] then multiset{} else DroppedBy(s, run[0]) + Dropped(Apply(s, run[0]), run[1..], t)
  }

  lemma StepKeepsMessages(s: State, e: Event)
    requires Inv(s) && Enabled(s, e)
    ensures Kept(s) + LoggedBy(e) == Kept(Apply(s, e)) + DroppedBy(s, e)
  {
    hide Inv, Kept, WriterNext, LoggerNext;
    assert Shape(s) by { Parts(s); }
    var t := Apply(s, e);
    match e
    case Enter(id, item) => EnterKeepsMessages(s, id, item);
    case WriterStep(id) => WriterKeepsMessages(s, id);
    case LoggerStep => LoggerDirect(s); SameKept(s, t);
    case SpuriousWake => LoggerDirect(s); SameKept(s, t);
    case _ => SameKept(s, t);
  }

  lemma EnterKeepsMessages(s: State, id: int, item: Item)
    requires Shape(s) && Enabled(s, Enter(id, item))
    ensures Kept(Apply(s, Enter(id, item))) == Kept(s) + multiset{Body(item)}
  {
    hide Bodies, Body;
    assert InHand(s) == multiset{};
  }

  lemma LoggerDirect(s: State)
    requires Shape(s) && s.logger != Done
    ensures LoggerNext(s).direct == s.direct
  {
  }

  lemma SameKept(s: State, t: State)
    requires t.writers == s.writers && t.lock == s.lock && t.accepted == s.accepted && t.direct == s.direct
    ensures Kept(t) == Kept(s)
  {
    hide Bodies, Body;
  }

  lemma WriterKeepsMessages(s: State, id: int)
    requires Inv(s) && At(s, id) != Idle
    ensures Kept(s) == Kept(WriterNext(s, id)) + DroppedBy(s, WriterStep(id))
  {
    hide Bodies, Body, Inv, WriterNext;
    WriterHasLock(s, id);
    WriterHands(s, id);
    if At(s, id).Entered? {
      BodiesAppend(s.direct, At(s, id).item);
    } else if At(s, id).Stored? {
      BodiesAppend(s.accepted, At(s, id).item);
    }
  }

  /** Where a writer's step puts the message it has in hand. */
  lemma WriterHands(s: State, id: int)
    requires Inv(s) && At(s, id) != Idle
    ensures var t, w := WriterNext(s, id), At(s, id);
            && (InsideLock(w) ==> t.lock == s.lock || t.lock == None)
            && (!InsideLock(w) ==>
                  t.lock == s.lock && t.accepted == s.accepted && t.direct == s.direct && InHand(t) == InHand(s))
            && (w.Entered? ==>
                  t.accepted == s.accepted
                  && (if At(t, id).Sized? then t.direct == s.direct && At(t, id).item == w.item && t.lock == s.lock
                      else t.direct == s.direct + [w.item] && InHand(t) == multiset{}))
            && (w.Sized? ==>
                  t.accepted == s.accepted && t.direct == s.direct
                  && (if At(t, id).Stored? then Body(At(t, id).item) == Body(w.item) && t.lock == s.lock
                      else At(t, id) == Idle && InHand(t) == multiset{}))
            && (w.Stored? ==>
                  t.accepted == s.accepted + [w.item] && t.direct == s.direct && InHand(t) == multiset{})
            && (w.Counted? || w.Delivered? ==>
                  t.accepted == s.accepted && t.direct == s.direct && InHand(t) == InHand(s) == multiset{})
  {
    hide Inv, Bodies;
    WriterHasLock(s, id);
  }

  lemma WriterHasLock(s: State, id: int)
    requires Inv(s)
    ensures InsideLock(At(s, id)) <==> s.lock == Some(id)
    ensures At(s, id).Sized? ==> At(s, id).list == s.writing && At(s, id).size == s.sizes[s.writing]
  {
    assert WriterOk(s, id);
  }

  lemma {:induction false} RunKeepsMessages(s: State, run: seq<Event>, t: State)
    requires Inv(s) && Leads(s, run, t)
    ensures Kept(s) + Logged(run) == Kept(t) + Dropped(s, run, t)
    decreases |run|
  {
    if run != [] {
      hide Inv, Kept, LoggedBy, DroppedBy, Apply, Enabled, Bodies;
      StepKeepsMessages(s, run[0]);
      ApplyKeeps(s, run[0]);
      RunKeepsMessages(Apply(s, run[0]), run[1..], t);
      Balance(Kept(s), LoggedBy(run[0]), Kept(Apply(s, run[0])), DroppedBy(s, run[0]),
              Logged(run[1..]), Kept(t), Dropped(Apply(s, run[0]), run[1..], t));
    }
  }

  lemma Balance<T>(a: multiset<T>, l: multiset<T>, b: multiset<T>, d: multiset<T>, l': multiset<T>, c: multiset<T>, d': multiset<T>)
    requires a + l == b + d && b + l' == c + d'
    ensures a + (l + l') == c + (d + d')
  {
    assert a + (l + l') == (a + l) + l' && c + (d + d') == (c + d') + d;
  }

  /** In every reachable state each message logged is once among the accepted ones, or was given
      to the backend by its writer, or was dropped, or is in the hands of the writer that holds
      the lock. */
  lemma NoMessageLost(s: State, run: seq<Event>, t: State)
    requires Initial(s) && Leads(s, run, t)
    ensures Logged(run) == Bodies(t.accepted) + Bodies(t.direct) + InHand(t) + Dropped(s, run, t)
  {
    InitialInv(s);
    RunKeepsMessages(s, run, t);
  }

  /** What becomes of the message of a writer that the other threads let finish. */
  predicate Ended(s: State, id: int, t: State)
    requires Shape(s)
  {
    match At(s, id)
    case Entered(item) =>
      if s.toList then Listed(s, item, s.sizes[s.writing], t)
      else t.direct == s.direct + [item] && t.accepted == s.accepted
    case Sized(item, _, size) => Listed(s, item, size, t)
    case Stored(item, _, _) => t.direct == s.direct && t.accepted == s.accepted + [item] && Noticed(s, t)
    case Counted => t.direct == s.direct && t.accepted == s.accepted && Noticed(s, t)
    case Unlocked => t.direct == s.direct && t.accepted == s.accepted && Noticed(s, t)
    case Signalling => t.direct == s.direct && t.accepted == s.accepted && t.flagged == s.flagged && t.wakeup
    case _ => t.direct == s.direct && t.accepted == s.accepted && t.flagged == s.flagged && t.wakeup == s.wakeup
  }

  /** A full list takes no message; the one that fills it is marked. */
  predicate Listed(s: State, item: Item, size: int, t: State) {
    && t.direct == s.direct
    && (if size == MAX_LIST_SIZE then t.accepted == s.accepted
        else if size == MAX_LIST_SIZE - 1 then t.accepted == s.accepted + [item.(source := "LOG OVERFLOW")] && Noticed(s, t)
        else t.accepted == s.accepted + [item] && Noticed(s, t))
  }

  /** The flag is up, and the wakeup is given exactly if the flag was not up before. */
  predicate Noticed(s: State, t: State) {
    t.flagged && (t.wakeup <==> s.wakeup || !s.flagged)
  }

  lemma EndedBefore(s: State, id: int, t: State)
    requires Inv(s) && At(s, id) != Idle && Ended(WriterNext(s, id), id, t)
    ensures Ended(s, id, t)
  {
    hide Inv, Signalled, Pending, LoggerOk, CleanupOk;
    WriterHasLock(s, id);
  }

  /** With the frontend set a message is listed, and the logger will notice, unless the list is
      full; without, the backend has it. */
  lemma {:induction false} WriteEnds(s: State, id: int) returns (run: seq<Event>, t: State)
    requires Inv(s)
    ensures (forall e :: e in run ==> e == WriterStep(id)) && Leads(s, run, t) && At(t, id) == Idle && Ended(s, id, t)
    decreases WriterStage(At(s, id))
  {
    if At(s, id) == Idle {
      run, t := [], s;
    } else {
      hide Inv, WriterNext, At, Ended, Leads;
      WriterKeeps(s, id);
      WriterAdvances(s, id);
      run, t := WriteEnds(WriterNext(s, id), id);
      EndedBefore(s, id, t);
      LeadsBefore(s, WriterStep(id), run, t);
      run := [WriterStep(id)] + run;
    }
  }

  /** The second call of RunList in Cleanup finds the list empty. */
  lemma SecondRunFindsNothing(s: State, run: seq<Event>, t: State)
    requires Initial(s) && Leads(s, run, t) && t.logger == ReadSize(CleanupSecond)
    ensures t.delivered == t.accepted && t.sizes == [0, 0]
  {
    InitialInv(s);
    RunKeeps(s, run, t);
    assert Pending(t) == [];
  }

  /** After Cleanup nothing is listed or delivered any more. */
  lemma {:induction false} NothingAfterCleanup(s: State, run: seq<Event>, t: State)
    requires Inv(s) && s.logger == Done && Leads(s, run, t)
    ensures t.logger == Done && !t.toList && t.accepted == s.accepted && t.delivered == s.delivered
    ensures Dropped(s, run, t) == multiset{}
    decreases |run|
  {
    if run != [] {
      if run[0].WriterStep? {
        assert WriterOk(s, run[0].id);
      }
      ApplyKeeps(s, run[0]);
      NothingAfterCleanup(Apply(s, run[0]), run[1..], t);
    }
  }
}
