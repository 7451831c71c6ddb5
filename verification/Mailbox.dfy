/** The lwIP mailbox of the FreeRTOS port, as a system of tasks that interleave at their critical
    sections, their queue calls and their plain reads and writes of the two mailbox fields.

    A queue is an atomic FIFO. A limited receive may time out when it likes, one without limit waits
    for a message or for its delay to be aborted, by a free or by something outside the mailbox, and
    any send may fail. Every call reads the handle first and uses it later, so a free may come in
    between. A call on the NULL handle never returns; a deleted queue gives and takes nothing. */
module Mailbox {
  datatype Option<T> = None | Some(value: T)

  type Task = int
  type Msg = int

  /** Where a task stands. A fetch is about to receive, blocked in the receive, about to look at the
      handle again, or about to clear the registration. It carries the result of its last receive, the
      content of the caller's buffer and the messages it has taken out of the queue; a post carries
      how often it has put its message in. A halted task hangs in a call on the NULL handle, a post
      with its message. */
  datatype Pc =
    | Idle
    | Halted(holding: seq<Msg>)
    | FetchReceive(forever: bool, removed: seq<Msg>)
    | FetchBlocked(forever: bool, removed: seq<Msg>)
    | FetchReload(result: bool, buffer: Option<Msg>, removed: seq<Msg>)
    | FetchClear(forever: bool, result: bool, buffer: Option<Msg>, removed: seq<Msg>)
    | Posting(m: Msg, enqueued: nat)
    | PostSend(m: Msg, enqueued: nat)
    | TryingPost(m: Msg)
    | TryingFetch
    | FreeAbort(captured: Option<Task>)
    | FreeDelete

  const TIMEOUT: nat := 0xFFFF_FFFF

  datatype Err = OK | MEM

  /** Whether a fetch was turned away at once, or received with or without a limit. */
  datatype Attempt = Refused | Limited | Unlimited

  /** A finished call of task t: what it returned and what it did to the queue. */
  datatype Outcome =
    | Fetched(t: Task, attempt: Attempt, code: nat, buffer: Option<Msg>, removed: seq<Msg>)
    | TryFetched(t: Task, ok: bool, buffer: Option<Msg>, removed: seq<Msg>)
    | Posted(t: Task, m: Msg, enqueued: nat)
    | TryPosted(t: Task, m: Msg, err: Err, enqueued: nat)

  /** A message that went into or out of the queue, and the task that moved it. */
  datatype Moved = Moved(t: Task, m: Msg)

  function Messages(ms: seq<Moved>): (r: seq<Msg>)
    ensures |r| == |ms|
  {
    seq(|ms|, i requires 0 <= i < |ms| => ms[i].m)
  }

  /** `open` says that `xMbox` is not NULL; `waiter` is `xTask`. */
  datatype State = State(open: bool, waiter: Option<Task>, deleted: bool,
                         capacity: nat, queue: seq<Msg>, pcs: map<Task, Pc>,
                         posted: seq<Moved>, fetched: seq<Moved>, outcomes: seq<Outcome>)

  /** What a receive does at once. */
  datatype Reply = Got | Blocks | Fails

  /** `Disturb` is an abort of the delay from outside the mailbox. */
  datatype Event =
    | BeginFetch(t: Task, forever: bool)
    | Receive(t: Task, reply: Reply)
    | Woken(t: Task)
    | TimedOut(t: Task)
    | Disturb(t: Task)
    | Reload(t: Task)
    | Clear(t: Task)
    | BeginPost(t: Task, m: Msg)
    | LoadPost(t: Task)
    | Send(t: Task, success: bool)
    | BeginTryPost(t: Task, m: Msg)
    | TryPost(t: Task)
    | BeginTryFetch(t: Task)
    | TryFetch(t: Task)
    | FreeCapture(t: Task)
    | Abort(t: Task)
    | Delete(t: Task)

  function New(capacity: nat): State {
    State(true, None, false, capacity, [], map[], [], [], [])
  }

  function PcOf(s: State, t: Task): Pc {
    if t in s.pcs then s.pcs[t] else Idle
  }

  function At(s: State, t: Task, pc: Pc): State {
    s.(pcs := s.pcs[t := pc])
  }

  function Finish(s: State, t: Task, o: Outcome): State {
    s.(pcs := s.pcs[t := Idle], outcomes := s.outcomes + [o])
  }

  function Take(s: State, t: Task): State
    requires s.queue != []
  {
    s.(queue := s.queue[1..], fetched := s.fetched + [Moved(t, s.queue[0])])
  }

  function Put(s: State, t: Task, m: Msg): State {
    s.(queue := s.queue + [m], posted := s.posted + [Moved(t, m)])
  }

  /** Between registering as the waiter and clearing the registration. */
  predicate InFetch(pc: Pc) {
    pc.FetchReceive? || pc.FetchBlocked? || pc.FetchReload? || pc.FetchClear?
  }

  predicate HasMessage(s: State) {
    s.queue != [] && !s.deleted
  }

  predicate HasRoom(s: State) {
    |s.queue| < s.capacity && !s.deleted
  }

  /** A receive takes a message if there is one. If not, a limited one fails or blocks, one without
      limit blocks; on a deleted queue either may do either. */
  predicate Answers(s: State, forever: bool, reply: Reply) {
    match reply
    case Got => HasMessage(s)
    case Blocks => !HasMessage(s)
    case Fails => !HasMessage(s) && (forever ==> s.deleted)
  }

  predicate Enabled(s: State, e: Event) {
    match e
    case BeginFetch(t, _) => PcOf(s, t) == Idle
    case Receive(t, reply) => PcOf(s, t).FetchReceive? && Answers(s, PcOf(s, t).forever, reply)
    case Woken(t) => PcOf(s, t).FetchBlocked? && HasMessage(s)
    case TimedOut(t) => PcOf(s, t).FetchBlocked? && !PcOf(s, t).forever
    case Disturb(t) => PcOf(s, t).FetchBlocked?
    case Reload(t) => PcOf(s, t).FetchReload?
    case Clear(t) => PcOf(s, t).FetchClear?
    case BeginPost(t, _) => PcOf(s, t) == Idle
    case LoadPost(t) => PcOf(s, t).Posting?
    case Send(t, success) => PcOf(s, t).PostSend? && (success ==> HasRoom(s))
    case BeginTryPost(t, _) => PcOf(s, t) == Idle
    case TryPost(t) => PcOf(s, t).TryingPost?
    case BeginTryFetch(t) => PcOf(s, t) == Idle
    case TryFetch(t) => PcOf(s, t).TryingFetch?
    case FreeCapture(t) => PcOf(s, t) == Idle
    case Abort(t) => PcOf(s, t).FreeAbort?
    case Delete(t) => PcOf(s, t).FreeDelete?
  }

  /** The critical section at the start of a fetch: register, or give up at once. */
  function DoBeginFetch(s: State, t: Task, forever: bool): State {
    if s.open && s.waiter == None
    then At(s, t, FetchReceive(forever, [])).(waiter := Some(t))
    else Finish(s, t, Fetched(t, Refused, TIMEOUT, None, []))
  }

  /** A receive that took a message. A fetch without limit goes on to look at the handle again, a
      limited one has made its only attempt. */
  function DoTake(s: State, t: Task): State
    requires (PcOf(s, t).FetchReceive? || PcOf(s, t).FetchBlocked?) && s.queue != []
  {
    var m, pc := s.queue[0], PcOf(s, t);
    At(Take(s, t), t, if pc.forever then FetchReload(true, Some(m), pc.removed + [m])
                      else FetchClear(false, true, Some(m), pc.removed + [m]))
  }

  /** A receive that failed; a limited fetch stores NULL. */
  function DoFail(s: State, t: Task): State
    requires PcOf(s, t).FetchReceive? || PcOf(s, t).FetchBlocked?
  {
    var pc := PcOf(s, t);
    At(s, t, if pc.forever then FetchReload(false, None, pc.removed) else FetchClear(false, false, None, pc.removed))
  }

  function DoReceive(s: State, t: Task, reply: Reply): State
    requires PcOf(s, t).FetchReceive? && (reply == Got ==> s.queue != [])
  {
    match reply
    case Got => DoTake(s, t)
    case Blocks => At(s, t, FetchBlocked(PcOf(s, t).forever, PcOf(s, t).removed))
    case Fails => DoFail(s, t)
  }

  function DoReload(s: State, t: Task): State
    requires PcOf(s, t).FetchReload?
  {
    var FetchReload(result, buffer, removed) := PcOf(s, t);
    if s.open && !result then At(s, t, FetchReceive(true, removed))
    else At(s, t, FetchClear(true, result, buffer, removed))
  }

  function DoClear(s: State, t: Task): State
    requires PcOf(s, t).FetchClear?
  {
    var FetchClear(forever, result, buffer, removed) := PcOf(s, t);
    var attempt := if forever then Unlimited else Limited;
    Finish(s.(waiter := None), t, Fetched(t, attempt, if result then 1 else TIMEOUT, buffer, removed))
  }

  function DoLoadPost(s: State, t: Task): State
    requires PcOf(s, t).Posting?
  {
    At(s, t, if s.open then PostSend(PcOf(s, t).m, PcOf(s, t).enqueued) else Halted([PcOf(s, t).m]))
  }

  /** One `xQueueSendToBack`; a post whose send fails reads the handle again. */
  function DoSend(s: State, t: Task, success: bool): State
    requires PcOf(s, t).PostSend?
  {
    var PostSend(m, enqueued) := PcOf(s, t);
    if success then Finish(Put(s, t, m), t, Posted(t, m, enqueued + 1)) else At(s, t, Posting(m, enqueued))
  }

  function DoTryPost(s: State, t: Task): State
    requires PcOf(s, t).TryingPost?
  {
    var m := PcOf(s, t).m;
    if HasRoom(s) then Finish(Put(s, t, m), t, TryPosted(t, m, OK, 1))
    else Finish(s, t, TryPosted(t, m, MEM, 0))
  }

  function DoTryFetch(s: State, t: Task): State {
    if HasMessage(s) then Finish(Take(s, t), t, TryFetched(t, true, Some(s.queue[0]), [s.queue[0]]))
    else Finish(s, t, TryFetched(t, false, None, []))
  }

  /** The critical section of a free; a second free reads the cleared handle. */
  function DoCapture(s: State, t: Task): State {
    if s.open then At(s, t, FreeAbort(s.waiter)).(open := false) else At(s, t, Halted([]))
  }

  /** `xTaskAbortDelay` on the captured task ends its receive if it is blocked there, and does nothing
      to it if it is not. */
  function DoAbort(s: State, t: Task): State
    requires PcOf(s, t).FreeAbort?
  {
    var s' := At(s, t, FreeDelete);
    match PcOf(s, t).captured
    case Some(u) => if PcOf(s, u).FetchBlocked? then DoFail(s', u) else s'
    case None => s'
  }

  function Step(s: State, e: Event): State
    requires Enabled(s, e)
  {
    match e
    case BeginFetch(t, forever) => DoBeginFetch(s, t, forever)
    case Receive(t, reply) => DoReceive(s, t, reply)
    case Woken(t) => DoTake(s, t)
    case TimedOut(t) => DoFail(s, t)
    case Disturb(t) => DoFail(s, t)
    case Reload(t) => DoReload(s, t)
    case Clear(t) => DoClear(s, t)
    case BeginPost(t, m) => At(s, t, Posting(m, 0))
    case LoadPost(t) => DoLoadPost(s, t)
    case Send(t, success) => DoSend(s, t, success)
    case BeginTryPost(t, m) => At(s, t, if s.open then TryingPost(m) else Halted([m]))
    case TryPost(t) => DoTryPost(s, t)
    case BeginTryFetch(t) => At(s, t, if s.open then TryingFetch else Halted([]))
    case TryFetch(t) => DoTryFetch(s, t)
    case FreeCapture(t) => DoCapture(s, t)
    case Abort(t) => DoAbort(s, t)
    case Delete(t) => At(s, t, Idle).(deleted := true)
  }

  ghost predicate IsRun(s: State, es: seq<Event>, t: State)
    decreases |es|
  {
    if es == [] then s == t
    else Enabled(s, es[0]) && IsRun(Step(s, es[0]), es[1..], t)
  }

  /** A step moves the task that takes it; an abort may also move the task it wakes. */
  lemma Others(s: State, e: Event, u: Task)
    requires Enabled(s, e) && u != e.t
    ensures PcOf(Step(s, e), u) == PcOf(s, u)
         || (e.Abort? && PcOf(s, u).FetchBlocked? && Step(s, e) == DoFail(At(s, e.t, FreeDelete), u))
  {
    if e.Abort? {
      AbortOthers(s, e.t, u);
    }
  }

  lemma AbortOthers(s: State, t: Task, u: Task)
    requires PcOf(s, t).FreeAbort? && u != t
    ensures PcOf(DoAbort(s, t), u) == PcOf(s, u)
         || (PcOf(s, u).FetchBlocked? && DoAbort(s, t) == DoFail(At(s, t, FreeDelete), u))
  {}

  // ---------------------------------------------------------------- the waiter

  /** `xTask` names exactly the fetcher that is between registering and clearing. */
  ghost predicate WaiterExact(s: State) {
    forall t :: s.waiter == Some(t) <==> InFetch(PcOf(s, t))
  }

  /** Whoever frees the mailbox holds on to the one registered fetcher, if there is one; that is
      another task. */
  ghost predicate CapturedExact(s: State) {
    && (s.deleted ==> !s.open)
    && (forall t :: PcOf(s, t).FreeAbort? ==> PcOf(s, t).captured != Some(t))
    && forall t, u :: PcOf(s, t).FreeAbort? && InFetch(PcOf(s, u)) ==> PcOf(s, t).captured == Some(u)
  }

  ghost predicate FreedClosed(s: State) {
    forall t :: PcOf(s, t).FreeAbort? || PcOf(s, t).FreeDelete? ==> !s.open
  }

  /** A step leaves the registration alone, makes its own, or clears its own. */
  lemma Registers(s: State, e: Event)
    requires Enabled(s, e)
    ensures var s', t := Step(s, e), e.t;
      || (s'.waiter == s.waiter && (InFetch(PcOf(s', t)) <==> InFetch(PcOf(s, t))))
      || (s.waiter == None && s'.waiter == Some(t) && InFetch(PcOf(s', t)))
      || (InFetch(PcOf(s, t)) && s'.waiter == None && !InFetch(PcOf(s', t)))
  {}

  lemma WaiterStep(s: State, e: Event)
    requires WaiterExact(s) && Enabled(s, e)
    ensures WaiterExact(Step(s, e))
  {
    var s' := Step(s, e);
    Registers(s, e);
    forall u ensures s'.waiter == Some(u) <==> InFetch(PcOf(s', u)) {
      assert s.waiter == Some(u) <==> InFetch(PcOf(s, u));
      assert s.waiter == Some(e.t) <==> InFetch(PcOf(s, e.t));
      if u != e.t { FetchPc(s, e, u); }
    }
  }

  lemma FetchPc(s: State, e: Event, u: Task)
    requires Enabled(s, e)
    ensures u != e.t ==> (InFetch(PcOf(Step(s, e), u)) <==> InFetch(PcOf(s, u)))
    ensures InFetch(PcOf(Step(s, e), u)) ==> InFetch(PcOf(s, u)) || (u == e.t && s.open)
  {
    if u != e.t { Others(s, e, u); }
  }

  lemma AbortPc(s: State, e: Event, t: Task)
    requires Enabled(s, e) && PcOf(Step(s, e), t).FreeAbort?
    ensures PcOf(Step(s, e), t) == PcOf(s, t)
         || (e == FreeCapture(t) && s.open && PcOf(s, t) == Idle && PcOf(Step(s, e), t).captured == s.waiter)
  {
    if t != e.t { Others(s, e, t); }
  }

  lemma DeletedClosed(s: State, e: Event)
    requires (s.deleted ==> !s.open) && FreedClosed(s) && Enabled(s, e)
    ensures Step(s, e).deleted ==> !Step(s, e).open
  {}

  lemma FreedClosedStep(s: State, e: Event)
    requires FreedClosed(s) && Enabled(s, e)
    ensures FreedClosed(Step(s, e))
  {
    var s' := Step(s, e);
    forall u | PcOf(s', u).FreeAbort? || PcOf(s', u).FreeDelete? ensures !s'.open {
      if u != e.t { Others(s, e, u); }
    }
  }

  lemma CapturedStep(s: State, e: Event)
    requires WaiterExact(s) && CapturedExact(s) && FreedClosed(s) && Enabled(s, e)
    ensures CapturedExact(Step(s, e))
  {
    var s' := Step(s, e);
    DeletedClosed(s, e);
    forall t | PcOf(s', t).FreeAbort? ensures PcOf(s', t).captured != Some(t) {
      AbortPc(s, e, t);
      assert s.waiter == Some(t) <==> InFetch(PcOf(s, t));
    }
    forall t, u | PcOf(s', t).FreeAbort? && InFetch(PcOf(s', u)) ensures PcOf(s', t).captured == Some(u) {
      AbortPc(s, e, t);
      FetchPc(s, e, u);
      assert s.waiter == Some(u) <==> InFetch(PcOf(s, u));
    }
  }

  // ---------------------------------------------------------------- the messages

  /** Inside a call, what it has done so far agrees with the result it will report. */
  ghost predicate PcConsistent(pc: Pc) {
    match pc
    case FetchReceive(_, removed) => removed == []
    case FetchBlocked(_, removed) => removed == []
    case FetchReload(result, buffer, removed) => Reported(result, buffer, removed)
    case FetchClear(_, result, buffer, removed) => Reported(result, buffer, removed)
    case Posting(_, enqueued) => enqueued == 0
    case PostSend(_, enqueued) => enqueued == 0
    case _ => true
  }

  ghost predicate Reported(result: bool, buffer: Option<Msg>, removed: seq<Msg>) {
    if result then buffer.Some? && removed == [buffer.value] else buffer == None && removed == []
  }

  /** A fetch returns 1 exactly when it took one message, which is the one in the buffer; a try
      succeeds exactly when it took or put one; a post that returns has put exactly one. */
  ghost predicate Honest(o: Outcome) {
    match o
    case Fetched(_, _, code, buffer, removed) =>
      (code == 1 || code == TIMEOUT) && Reported(code == 1, buffer, removed)
    case TryFetched(_, ok, buffer, removed) => Reported(ok, buffer, removed)
    case Posted(_, _, enqueued) => enqueued == 1
    case TryPosted(_, _, err, enqueued) => enqueued == if err == OK then 1 else 0
  }

  ghost predicate Conserved(s: State) {
    Messages(s.posted) == Messages(s.fetched) + s.queue && |s.queue| <= s.capacity
  }

  ghost predicate Consistent(s: State) {
    forall t :: PcConsistent(PcOf(s, t))
  }

  ghost predicate AllHonest(s: State) {
    forall o :: o in s.outcomes ==> Honest(o)
  }

  lemma OneMoreMessage(ms: seq<Moved>, t: Task, m: Msg)
    ensures Messages(ms + [Moved(t, m)]) == Messages(ms) + [m]
  {}

  lemma TakeConserves(s: State, t: Task)
    requires Conserved(s) && s.queue != []
    ensures Conserved(Take(s, t))
  {
    OneMoreMessage(s.fetched, t, s.queue[0]);
    assert s.queue == [s.queue[0]] + s.queue[1..];
  }

  lemma PutConserves(s: State, t: Task, m: Msg)
    requires Conserved(s) && |s.queue| < s.capacity
    ensures Conserved(Put(s, t, m))
  {
    OneMoreMessage(s.posted, t, m);
  }

  lemma ConservedStep(s: State, e: Event)
    requires Conserved(s) && Enabled(s, e)
    ensures Conserved(Step(s, e))
  {
    if s.queue != [] { TakeConserves(s, e.t); }
    if |s.queue| < s.capacity {
      match e {
        case Send(t, _) => PutConserves(s, t, PcOf(s, t).m);
        case TryPost(t) => PutConserves(s, t, PcOf(s, t).m);
        case _ =>
      }
    }
  }

  lemma ConsistentStep(s: State, e: Event)
    requires Consistent(s) && Enabled(s, e)
    ensures Consistent(Step(s, e))
  {
    var s' := Step(s, e);
    assert PcConsistent(PcOf(s, e.t));
    forall u ensures PcConsistent(PcOf(s', u)) {
      assert PcConsistent(PcOf(s, u));
      if u != e.t { Others(s, e, u); }
    }
  }

  lemma HonestStep(s: State, e: Event)
    requires Consistent(s) && AllHonest(s) && Enabled(s, e)
    ensures AllHonest(Step(s, e))
  {
    assert PcConsistent(PcOf(s, e.t));
  }

  // ---------------------------------------------------------------- every run

  ghost predicate Invariant(s: State) {
    WaiterExact(s) && FreedClosed(s) && CapturedExact(s) && Conserved(s) && Consistent(s) && AllHonest(s)
  }

  lemma {:induction false} RunInvariant(s: State, es: seq<Event>, t: State)
    requires Invariant(s) && IsRun(s, es, t)
    ensures Invariant(t)
    decreases |es|
  {
    if es != [] {
      WaiterStep(s, es[0]);
      FreedClosedStep(s, es[0]);
      CapturedStep(s, es[0]);
      ConservedStep(s, es[0]);
      ConsistentStep(s, es[0]);
      HonestStep(s, es[0]);
      RunInvariant(Step(s, es[0]), es[1..], t);
    }
  }

  /** In every run of a new mailbox `xTask` is t exactly while t fetches, so there is never a
      second blocking fetcher. */
  lemma OneFetcher(capacity: nat, es: seq<Event>, s: State, t: Task, u: Task)
    requires IsRun(New(capacity), es, s)
    ensures s.waiter == Some(t) <==> InFetch(PcOf(s, t))
    ensures InFetch(PcOf(s, t)) && InFetch(PcOf(s, u)) ==> t == u
  {
    RunInvariant(New(capacity), es, s);
    assert s.waiter == Some(u) <==> InFetch(PcOf(s, u));
  }

  /** In every run messages leave in the order they were posted, none is lost or doubled, and every
      return value is true to what the call did. */
  lemma MessagesConserved(capacity: nat, es: seq<Event>, s: State)
    requires IsRun(New(capacity), es, s)
    ensures Messages(s.fetched) + s.queue == Messages(s.posted) && |s.queue| <= capacity
    ensures forall o :: o in s.outcomes ==> Honest(o)
  {
    RunInvariant(New(capacity), es, s);
    RunCapacity(New(capacity), es, s);
  }

  lemma {:induction false} RunCapacity(s: State, es: seq<Event>, t: State)
    requires IsRun(s, es, t)
    ensures t.capacity == s.capacity
    decreases |es|
  {
    if es != [] {
      RunCapacity(Step(s, es[0]), es[1..], t);
    }
  }

  // ---------------------------------------------------------------- after free

  /** How many more steps of its fetch a task can take once the handle is gone. */
  function Rank(pc: Pc): nat {
    match pc
    case FetchReceive(_, _) => 4
    case FetchBlocked(_, _) => 3
    case FetchReload(_, _, _) => 2
    case FetchClear(_, _, _, _) => 1
    case _ => 0
  }

  predicate IsFetchStep(e: Event, t: Task) {
    (e.Receive? || e.Woken? || e.TimedOut? || e.Disturb? || e.Reload? || e.Clear?) && e.t == t
  }

  function FetchSteps(es: seq<Event>, t: Task): nat {
    if es == [] then 0 else (if IsFetchStep(es[0], t) then 1 else 0) + FetchSteps(es[1..], t)
  }

  function Receives(es: seq<Event>, t: Task): nat {
    if es == [] then 0 else (if es[0].Receive? && es[0].t == t then 1 else 0) + Receives(es[1..], t)
  }

  /** With the handle gone no step registers a fetcher or reopens the mailbox, and each step of a
      fetch brings it nearer its end. */
  lemma ClosedStep(s: State, e: Event, t: Task)
    requires !s.open && Enabled(s, e)
    ensures !Step(s, e).open
    ensures Step(s, e).waiter == s.waiter || Step(s, e).waiter == None
    ensures Rank(PcOf(Step(s, e), t)) + (if IsFetchStep(e, t) then 1 else 0) <= Rank(PcOf(s, t))
  {
    if t != e.t { Others(s, e, t); }
  }

  /** Once free has cleared the handle: the waiter can only be cleared, never replaced; a fetch
      under way ends after at most four steps of its own; and at most one of them is a further
      receive on the queue. Whether it gets to take them is `AbortEndsFetchIff` below. */
  lemma {:induction false} AfterFree(s: State, es: seq<Event>, s': State, t: Task)
    requires !s.open && IsRun(s, es, s')
    ensures !s'.open
    ensures s'.waiter == s.waiter || s'.waiter == None
    ensures FetchSteps(es, t) + Rank(PcOf(s', t)) <= Rank(PcOf(s, t)) <= 4
    ensures Receives(es, t) <= if PcOf(s, t).FetchReceive? then 1 else 0
    decreases |es|
  {
    if es != [] {
      ClosedStep(s, es[0], t);
      AfterFree(Step(s, es[0]), es[1..], s', t);
    }
  }

  /** When a free is about to abort the delay of the task it captured, no other task is registered,
      and the captured one is still in its fetch if and only if `xTask` is still set. */
  lemma FreeWakesTheFetcher(capacity: nat, es: seq<Event>, s: State, t: Task)
    requires IsRun(New(capacity), es, s) && PcOf(s, t).FreeAbort?
    ensures forall u :: InFetch(PcOf(s, u)) ==> PcOf(s, t).captured == Some(u)
    ensures forall u :: PcOf(s, t).captured == Some(u) ==> (InFetch(PcOf(s, u)) <==> s.waiter != None)
  {
    RunInvariant(New(capacity), es, s);
    if s.waiter.Some? {
      assert InFetch(PcOf(s, s.waiter.value));
    }
  }

  lemma {:induction false} OneMore(s: State, es: seq<Event>, t: State, e: Event)
    requires IsRun(s, es, t) && Enabled(t, e)
    ensures IsRun(s, es + [e], Step(t, e))
    decreases |es|
  {
    if es == [] {
      assert [e][1..] == [];
    } else {
      OneMore(Step(s, es[0]), es[1..], t, e);
      assert (es + [e])[1..] == es[1..] + [e];
    }
  }

  /** Task 1 has begun to fetch and task 2 to free. */
  lemma FetchMeetsFree(forever: bool, es: seq<Event>) returns (s: State)
    requires es == [BeginFetch(1, forever), FreeCapture(2)]
    ensures IsRun(New(1), es, s)
    ensures !s.open && !s.deleted && s.waiter == Some(1) && s.queue == []
    ensures s.pcs == map[1 := FetchReceive(forever, []), 2 := FreeAbort(Some(1))]
  {
    var s1 := Step(New(1), BeginFetch(1, forever));
    s := Step(s1, FreeCapture(2));
    OneMore(New(1), [], New(1), BeginFetch(1, forever));
    OneMore(New(1), [BeginFetch(1, forever)], s1, FreeCapture(2));
  }

  /** That condition can fail: a fetch may end between the capture and the abort, which then meets
      a task that has left the mailbox. */
  lemma StaleWake() returns (es: seq<Event>, s: State)
    ensures es == [BeginFetch(1, false), FreeCapture(2)] + [Receive(1, Fails)] + [Clear(1)]
    ensures IsRun(New(1), es, s)
    ensures Enabled(s, Abort(2)) && PcOf(s, 2).captured == Some(1)
    ensures s.waiter == None && PcOf(s, 1) == Idle
  {
    var es2 := [BeginFetch(1, false), FreeCapture(2)];
    var s2 := FetchMeetsFree(false, es2);
    OneMore(New(1), es2, s2, Receive(1, Fails));
    var s3 := Step(s2, Receive(1, Fails));
    OneMore(New(1), es2 + [Receive(1, Fails)], s3, Clear(1));
    es := es2 + [Receive(1, Fails)] + [Clear(1)];
    s := Step(s3, Clear(1));
  }

  // ---------------------------------------------------------------- the wake-up

  lemma RunOfTwo(s: State, e: Event, f: Event)
    requires Enabled(s, e) && Enabled(Step(s, e), f)
    ensures IsRun(s, [e, f], Step(Step(s, e), f))
  {
    var t := Step(Step(s, e), f);
    assert IsRun(t, [], t);
    assert [f][1..] == [] && IsRun(Step(s, e), [f], t);
    assert [e, f][1..] == [f];
  }

  /** In no continuation is the task ever blocked in the mailbox. */
  ghost predicate NeverBlocked(s: State, u: Task) {
    forall es, x :: IsRun(s, es, x) ==> !PcOf(x, u).FetchBlocked?
  }

  /** A task about to receive when the abort has gone by can still be blocked. */
  lemma CanBlock(s: State, t: Task, u: Task)
    requires PcOf(s, t) == FreeDelete && PcOf(s, u).FetchReceive?
    ensures !NeverBlocked(s, u)
  {
    RunOfTwo(s, Delete(t), Receive(u, Blocks));
    var x := Step(Step(s, Delete(t)), Receive(u, Blocks));
    assert PcOf(x, u).FetchBlocked?;
  }

  /** One that is neither about to receive nor blocked cannot. */
  lemma CannotBlock(s: State, u: Task)
    requires !s.open && !PcOf(s, u).FetchReceive? && !PcOf(s, u).FetchBlocked?
    ensures NeverBlocked(s, u)
  {
    forall es, x | IsRun(s, es, x) ensures !PcOf(x, u).FetchBlocked? {
      AfterFree(s, es, x, u);
    }
  }

  /** The abort wakes the captured task if and only if that is blocked in its receive. The task is then
      certain never to be blocked in the mailbox again if and only if it was not about to receive: the
      abort does not wait for it. */
  lemma AbortEndsFetchIff(capacity: nat, es: seq<Event>, s: State, t: Task, u: Task)
    requires IsRun(New(capacity), es, s) && PcOf(s, t) == FreeAbort(Some(u))
    ensures PcOf(Step(s, Abort(t)), u) != PcOf(s, u) <==> PcOf(s, u).FetchBlocked?
    ensures NeverBlocked(Step(s, Abort(t)), u) <==> !PcOf(s, u).FetchReceive?
  {
    RunInvariant(New(capacity), es, s);
    assert PcOf(s, t).captured == Some(u) && u != t;
    var s' := Step(s, Abort(t));
    Others(s, Abort(t), u);
    if PcOf(s, u).FetchReceive? {
      CanBlock(s', t, u);
    } else {
      CannotBlock(s', u);
    }
  }

  ghost predicate NoAborts(s: State) {
    forall t :: !PcOf(s, t).FreeAbort?
  }

  lemma BlockedStep(s: State, e: Event, u: Task)
    requires s.deleted && !s.open && NoAborts(s) && PcOf(s, u) == FetchBlocked(true, [])
    requires Enabled(s, e) && e != Disturb(u)
    ensures var s' := Step(s, e);
      s'.deleted && !s'.open && NoAborts(s') && PcOf(s', u) == FetchBlocked(true, [])
  {
    var s' := Step(s, e);
    forall t ensures !PcOf(s', t).FreeAbort? {
      if t != e.t { Others(s, e, t); }
    }
    if u != e.t { Others(s, e, u); }
  }

  /** A task without limit that is blocked on the deleted queue once the only abort has gone by stays
      blocked for good, unless something outside the mailbox wakes it. */
  lemma {:induction false} StaysBlocked(s: State, es: seq<Event>, x: State, u: Task)
    requires s.deleted && !s.open && NoAborts(s) && PcOf(s, u) == FetchBlocked(true, [])
    requires IsRun(s, es, x) && Disturb(u) !in es
    ensures PcOf(x, u) == FetchBlocked(true, [])
    decreases |es|
  {
    if es != [] {
      BlockedStep(s, es[0], u);
      StaysBlocked(Step(s, es[0]), es[1..], x, u);
    }
  }

  /** Task 2 has freed the mailbox before task 1 gets to receive. */
  lemma FreedFirst(es: seq<Event>) returns (s: State)
    requires es == [BeginFetch(1, true), FreeCapture(2)] + [Abort(2)] + [Delete(2)]
    ensures IsRun(New(1), es, s)
    ensures s.deleted && !s.open && s.pcs == map[1 := FetchReceive(true, []), 2 := Idle]
  {
    var es2 := [BeginFetch(1, true), FreeCapture(2)];
    var s2 := FetchMeetsFree(true, es2);
    OneMore(New(1), es2, s2, Abort(2));
    var s3 := Step(s2, Abort(2));
    OneMore(New(1), es2 + [Abort(2)], s3, Delete(2));
    s := Step(s3, Delete(2));
  }

  /** That state is reached: the free may be over before the fetch gets to receive. */
  lemma LostWake() returns (es: seq<Event>, s: State)
    ensures es == [BeginFetch(1, true), FreeCapture(2)] + [Abort(2)] + [Delete(2)] + [Receive(1, Blocks)]
    ensures IsRun(New(1), es, s)
    ensures s.deleted && !s.open && NoAborts(s) && PcOf(s, 1) == FetchBlocked(true, [])
  {
    var es4 := [BeginFetch(1, true), FreeCapture(2)] + [Abort(2)] + [Delete(2)];
    var s4 := FreedFirst(es4);
    OneMore(New(1), es4, s4, Receive(1, Blocks));
    es, s := es4 + [Receive(1, Blocks)], Step(s4, Receive(1, Blocks));
  }
}
