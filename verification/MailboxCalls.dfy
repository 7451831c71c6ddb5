/** What a call on the mailbox does for its caller over whole runs: a task gets and gives the messages
    its own calls moved, a call without limit does not give up, and no call hangs on an open mailbox. */
module MailboxCalls {
  import opened Mailbox

  // ---------------------------------------------------------------- whose messages

  /** The messages that task t moved. */
  function By(ms: seq<Moved>, t: Task): seq<Msg> {
    if ms == [] then [] else By(ms[..|ms| - 1], t) + (if ms[|ms| - 1].t == t then [ms[|ms| - 1].m] else [])
  }

  /** What the finished calls of task t amount to, one after the other. */
  function Gather(os: seq<Outcome>, t: Task, f: Outcome -> seq<Msg>): seq<Msg> {
    if os == [] then [] else Gather(os[..|os| - 1], t, f) + (if os[|os| - 1].t == t then f(os[|os| - 1]) else [])
  }

  /** The message a call that reports success leaves in the caller's buffer. */
  function Delivered(o: Outcome): seq<Msg> {
    match o
    case Fetched(_, _, code, buffer, _) => if code == 1 && buffer.Some? then [buffer.value] else []
    case TryFetched(_, ok, buffer, _) => if ok && buffer.Some? then [buffer.value] else []
    case _ => []
  }

  /** The message of a post that returned, or of a try that reports success. */
  function Accepted(o: Outcome): seq<Msg> {
    match o
    case Posted(_, m, _) => [m]
    case TryPosted(_, m, err, _) => if err == OK then [m] else []
    case _ => []
  }

  /** The message of a post or try that is over. */
  function Ended(o: Outcome): seq<Msg> {
    match o
    case Posted(_, m, _) => [m]
    case TryPosted(_, m, _, _) => [m]
    case _ => []
  }

  /** The message in the buffer of a fetch that has received one and not returned yet. */
  function UnderWay(pc: Pc): seq<Msg> {
    match pc
    case FetchReload(result, buffer, _) => if result && buffer.Some? then [buffer.value] else []
    case FetchClear(_, result, buffer, _) => if result && buffer.Some? then [buffer.value] else []
    case _ => []
  }

  /** The message of a post or try that is not over. */
  function Holding(pc: Pc): seq<Msg> {
    match pc
    case Posting(m, _) => [m]
    case PostSend(m, _) => [m]
    case TryingPost(m) => [m]
    case Halted(holding) => holding
    case _ => []
  }

  /** The messages that callers hand to the posts and tries of task t. */
  function Handed(es: seq<Event>, t: Task): seq<Msg> {
    if es == [] then [] else Offered(es[0], t) + Handed(es[1..], t)
  }

  lemma OneMoreBy(ms: seq<Moved>, x: Moved, t: Task)
    ensures By(ms + [x], t) == By(ms, t) + if x.t == t then [x.m] else []
  {
    assert (ms + [x])[..|ms|] == ms;
  }

  lemma OneMoreOutcome(os: seq<Outcome>, o: Outcome, t: Task, f: Outcome -> seq<Msg>)
    ensures Gather(os + [o], t, f) == Gather(os, t, f) + if o.t == t then f(o) else []
  {
    assert (os + [o])[..|os|] == os;
  }

  /** What task u has been given and has in hand. */
  function Given(s: State, u: Task): seq<Msg> {
    Gather(s.outcomes, u, Delivered) + UnderWay(PcOf(s, u))
  }

  /** The messages of its posts and tries, over or not. */
  function TakenUp(s: State, u: Task): seq<Msg> {
    Gather(s.outcomes, u, Ended) + Holding(PcOf(s, u))
  }

  /** What a task has taken out is what it was given, and what it has put in is what its calls
      report. */
  ghost predicate Accounts(s: State, u: Task) {
    By(s.fetched, u) == Given(s, u) && By(s.posted, u) == Gather(s.outcomes, u, Accepted)
  }

  /** The steps that end a call. */
  predicate Ends(s: State, e: Event) {
    e.Clear? || e.TryPost? || e.TryFetch? || (e.Send? && e.success)
    || (e.BeginFetch? && !(s.open && s.waiter == None))
  }

  lemma NoEnd(s: State, e: Event)
    requires Enabled(s, e) && !Ends(s, e)
    ensures Step(s, e).outcomes == s.outcomes && Step(s, e).posted == s.posted
    ensures !e.Woken? && !(e.Receive? && e.reply == Got) ==> Step(s, e).fetched == s.fetched
  {}

  lemma TakeAccounts(s: State, t: Task, u: Task)
    requires Accounts(s, u) && (PcOf(s, t).FetchReceive? || PcOf(s, t).FetchBlocked?) && s.queue != []
    ensures Accounts(DoTake(s, t), u)
  {
    OneMoreBy(s.fetched, Moved(t, s.queue[0]), u);
    assert DoTake(s, t).outcomes == s.outcomes && DoTake(s, t).posted == s.posted;
    assert DoTake(s, t).fetched == s.fetched + [Moved(t, s.queue[0])];
  }

  lemma QuietStep(s: State, e: Event, u: Task)
    requires Enabled(s, e) && !Ends(s, e) && !e.Woken? && !(e.Receive? && e.reply == Got)
    ensures UnderWay(PcOf(Step(s, e), u)) == UnderWay(PcOf(s, u))
  {
    if u != e.t { Others(s, e, u); }
  }

  /** A call of task t that has taken out `took` ends with outcome o. */
  lemma FinishTaken(s: State, s0: State, t: Task, o: Outcome, took: seq<Msg>, u: Task)
    requires By(s.fetched, u) == Given(s, u) && o.t == t && s0.outcomes == s.outcomes && s0.pcs == s.pcs
    requires By(s0.fetched, u) == By(s.fetched, u) + if u == t then took else []
    requires UnderWay(PcOf(s, t)) + took == Delivered(o)
    ensures By(s0.fetched, u) == Given(Finish(s0, t, o), u)
  {
    var x := Finish(s0, t, o);
    FinishGathers(s0, t, o, u, Delivered);
    if u == t {
      Associate(Gather(s.outcomes, u, Delivered), UnderWay(PcOf(s, t)), took);
      assert UnderWay(PcOf(x, u)) == [];
    } else {
      assert PcOf(x, u) == PcOf(s, u);
    }
  }

  /** A call of task t that has put in `put` ends with outcome o. */
  lemma FinishPut(s: State, s0: State, t: Task, o: Outcome, put: seq<Msg>, u: Task)
    requires By(s.posted, u) == Gather(s.outcomes, u, Accepted) && o.t == t && s0.outcomes == s.outcomes
    requires By(s0.posted, u) == By(s.posted, u) + (if u == t then put else []) && put == Accepted(o)
    ensures By(s0.posted, u) == Gather(Finish(s0, t, o).outcomes, u, Accepted)
  {
    FinishGathers(s0, t, o, u, Accepted);
  }

  lemma FinishAccounts(s: State, s0: State, t: Task, o: Outcome, put: seq<Msg>, took: seq<Msg>, u: Task)
    requires Accounts(s, u) && o.t == t && s0.outcomes == s.outcomes && s0.pcs == s.pcs
    requires By(s0.fetched, u) == By(s.fetched, u) + if u == t then took else []
    requires By(s0.posted, u) == By(s.posted, u) + if u == t then put else []
    requires UnderWay(PcOf(s, t)) + took == Delivered(o) && put == Accepted(o)
    ensures Accounts(Finish(s0, t, o), u)
  {
    FinishTaken(s, s0, t, o, took, u);
    FinishPut(s, s0, t, o, put, u);
  }

  lemma Associate(a: seq<Msg>, b: seq<Msg>, c: seq<Msg>)
    ensures a + b + c == a + (b + c)
  {}

  lemma FinishGathers(s: State, t: Task, o: Outcome, u: Task, f: Outcome -> seq<Msg>)
    requires o.t == t
    ensures Gather(Finish(s, t, o).outcomes, u, f) == Gather(s.outcomes, u, f) + if u == t then f(o) else []
  {
    OneMoreOutcome(s.outcomes, o, u, f);
  }

  lemma ClearAccounts(s: State, t: Task, u: Task)
    requires Accounts(s, u) && PcOf(s, t).FetchClear?
    ensures Accounts(DoClear(s, t), u)
  {
    var FetchClear(forever, result, buffer, removed) := PcOf(s, t);
    var o := Fetched(t, if forever then Unlimited else Limited, if result then 1 else TIMEOUT, buffer, removed);
    FinishAccounts(s, s.(waiter := None), t, o, [], [], u);
  }

  lemma SendAccounts(s: State, t: Task, u: Task)
    requires Accounts(s, u) && PcOf(s, t).PostSend?
    ensures Accounts(DoSend(s, t, true), u)
  {
    var PostSend(m, enqueued) := PcOf(s, t);
    var s0, o := Put(s, t, m), Posted(t, m, enqueued + 1);
    OneMoreBy(s.posted, Moved(t, m), u);
    assert s0.fetched == s.fetched && s0.posted == s.posted + [Moved(t, m)];
    FinishAccounts(s, s0, t, o, [m], [], u);
    assert DoSend(s, t, true) == Finish(s0, t, o);
  }

  lemma TryPostAccounts(s: State, t: Task, u: Task)
    requires Accounts(s, u) && PcOf(s, t).TryingPost?
    ensures Accounts(DoTryPost(s, t), u)
  {
    var m := PcOf(s, t).m;
    OneMoreBy(s.posted, Moved(t, m), u);
    if HasRoom(s) {
      FinishAccounts(s, Put(s, t, m), t, TryPosted(t, m, OK, 1), [m], [], u);
    } else {
      FinishAccounts(s, s, t, TryPosted(t, m, MEM, 0), [], [], u);
    }
  }

  lemma TryFetchAccounts(s: State, t: Task, u: Task)
    requires Accounts(s, u) && PcOf(s, t).TryingFetch?
    ensures Accounts(DoTryFetch(s, t), u)
  {
    if HasMessage(s) {
      var m := s.queue[0];
      OneMoreBy(s.fetched, Moved(t, m), u);
      FinishAccounts(s, Take(s, t), t, TryFetched(t, true, Some(m), [m]), [], [m], u);
    } else {
      FinishAccounts(s, s, t, TryFetched(t, false, None, []), [], [], u);
    }
  }

  lemma RefuseAccounts(s: State, t: Task, u: Task)
    requires Accounts(s, u) && PcOf(s, t) == Idle
    ensures Accounts(Finish(s, t, Fetched(t, Refused, TIMEOUT, None, [])), u)
  {
    FinishAccounts(s, s, t, Fetched(t, Refused, TIMEOUT, None, []), [], [], u);
  }

  lemma AccountsStep(s: State, e: Event, u: Task)
    requires Accounts(s, u) && Enabled(s, e)
    ensures Accounts(Step(s, e), u)
  {
    if Ends(s, e) {
      match e {
        case Clear(t) => ClearAccounts(s, t, u);
        case Send(t, _) => SendAccounts(s, t, u);
        case TryPost(t) => TryPostAccounts(s, t, u);
        case TryFetch(t) => TryFetchAccounts(s, t, u);
        case BeginFetch(t, _) => RefuseAccounts(s, t, u);
      }
    } else if e.Woken? || (e.Receive? && e.reply == Got) {
      TakeAccounts(s, e.t, u);
    } else {
      NoEnd(s, e);
      QuietStep(s, e, u);
    }
  }

  /** The message that a step takes up from a caller. */
  function Offered(e: Event, t: Task): seq<Msg> {
    if (e.BeginPost? || e.BeginTryPost?) && e.t == t then [e.m] else []
  }

  lemma FinishTakenUp(s: State, s0: State, t: Task, o: Outcome, u: Task)
    requires o.t == t && s0.outcomes == s.outcomes && s0.pcs == s.pcs && Ended(o) == Holding(PcOf(s, t))
    ensures TakenUp(Finish(s0, t, o), u) == TakenUp(s, u)
  {
    OneMoreOutcome(s.outcomes, o, u, Ended);
  }

  lemma PostTakenUp(s: State, t: Task, u: Task)
    ensures PcOf(s, t).PostSend? ==> TakenUp(DoSend(s, t, true), u) == TakenUp(s, u)
    ensures PcOf(s, t).TryingPost? ==> TakenUp(DoTryPost(s, t), u) == TakenUp(s, u)
  {
    match PcOf(s, t) {
      case PostSend(m, enqueued) => FinishTakenUp(s, Put(s, t, m), t, Posted(t, m, enqueued + 1), u);
      case TryingPost(m) =>
        FinishTakenUp(s, Put(s, t, m), t, TryPosted(t, m, OK, 1), u);
        FinishTakenUp(s, s, t, TryPosted(t, m, MEM, 0), u);
      case _ =>
    }
  }

  lemma FetchTakenUp(s: State, t: Task, u: Task)
    ensures PcOf(s, t) == Idle ==>
      TakenUp(Finish(s, t, Fetched(t, Refused, TIMEOUT, None, [])), u) == TakenUp(s, u)
    ensures PcOf(s, t).FetchClear? ==> TakenUp(DoClear(s, t), u) == TakenUp(s, u)
    ensures PcOf(s, t).TryingFetch? ==> TakenUp(DoTryFetch(s, t), u) == TakenUp(s, u)
  {
    match PcOf(s, t) {
      case Idle => FinishTakenUp(s, s, t, Fetched(t, Refused, TIMEOUT, None, []), u);
      case FetchClear(forever, result, buffer, removed) =>
        var o := Fetched(t, if forever then Unlimited else Limited, if result then 1 else TIMEOUT, buffer, removed);
        FinishTakenUp(s, s.(waiter := None), t, o, u);
      case TryingFetch =>
        if HasMessage(s) {
          FinishTakenUp(s, Take(s, t), t, TryFetched(t, true, Some(s.queue[0]), [s.queue[0]]), u);
        }
        FinishTakenUp(s, s, t, TryFetched(t, false, None, []), u);
      case _ =>
    }
  }

  lemma EndTakenUp(s: State, e: Event, u: Task)
    requires Enabled(s, e) && Ends(s, e)
    ensures TakenUp(Step(s, e), u) == TakenUp(s, u)
  {
    PostTakenUp(s, e.t, u);
    FetchTakenUp(s, e.t, u);
  }

  lemma MoveTakenUp(s: State, e: Event, u: Task)
    requires Enabled(s, e) && !Ends(s, e)
    ensures Holding(PcOf(Step(s, e), u)) == Holding(PcOf(s, u)) + Offered(e, u)
  {
    if u != e.t { Others(s, e, u); }
  }

  lemma TakenUpStep(s: State, e: Event, u: Task)
    requires Enabled(s, e)
    ensures TakenUp(Step(s, e), u) == TakenUp(s, u) + Offered(e, u)
  {
    if Ends(s, e) {
      EndTakenUp(s, e, u);
      assert Offered(e, u) == [];
    } else {
      NoEnd(s, e);
      MoveTakenUp(s, e, u);
    }
  }

  lemma {:induction false} RunAccounts(s: State, es: seq<Event>, x: State, u: Task)
    requires Accounts(s, u) && IsRun(s, es, x)
    ensures Accounts(x, u)
    decreases |es|
  {
    if es != [] {
      AccountsStep(s, es[0], u);
      RunAccounts(Step(s, es[0]), es[1..], x, u);
    }
  }

  lemma {:induction false} RunTakesUp(s: State, es: seq<Event>, x: State, u: Task)
    requires IsRun(s, es, x)
    ensures TakenUp(x, u) == TakenUp(s, u) + Handed(es, u)
    decreases |es|
  {
    if es != [] {
      TakenUpStep(s, es[0], u);
      RunTakesUp(Step(s, es[0]), es[1..], x, u);
      Associate(TakenUp(s, u), Offered(es[0], u), Handed(es[1..], u));
    }
  }

  /** In every run of a new mailbox the messages a task takes out of the queue are, in order, those left
      in the buffers of its calls that report success, and the one of the fetch it is in; those it puts
      in are those of its posts that returned and its tries that report success; and its posts and
      tries that are over, and the one it is in, are those its callers handed over. */
  lemma MessagesReachTheirCallers(capacity: nat, es: seq<Event>, s: State, t: Task)
    requires IsRun(New(capacity), es, s)
    ensures By(s.fetched, t) == Gather(s.outcomes, t, Delivered) + UnderWay(PcOf(s, t))
    ensures By(s.posted, t) == Gather(s.outcomes, t, Accepted)
    ensures Gather(s.outcomes, t, Ended) + Holding(PcOf(s, t)) == Handed(es, t)
  {
    var n := New(capacity);
    assert TakenUp(n, t) == [];
    RunAccounts(n, es, s, t);
    RunTakesUp(n, es, s, t);
  }

  // ---------------------------------------------------------------- trying on

  /** In a fetch without limit that has not received anything. */
  predicate Trying(pc: Pc) {
    ((pc.FetchReceive? || pc.FetchBlocked?) && pc.forever) || (pc.FetchReload? && !pc.result)
  }

  lemma {:induction false} OpenBefore(s: State, es: seq<Event>, x: State)
    requires IsRun(s, es, x) && x.open
    ensures s.open
  {
    if !s.open { AfterFree(s, es, x, 0); }
  }

  lemma TryingStep(s: State, e: Event, t: Task)
    requires Enabled(s, e) && s.open && Trying(PcOf(s, t)) && e != Receive(t, Got) && e != Woken(t)
    ensures Trying(PcOf(Step(s, e), t))
  {
    if t != e.t { Others(s, e, t); }
  }

  /** A fetch without limit keeps trying while the mailbox is open, however often its receives fail,
      until one of them takes a message. */
  lemma {:induction false} FetchKeepsTrying(s: State, es: seq<Event>, x: State, t: Task)
    requires IsRun(s, es, x) && x.open && Trying(PcOf(s, t))
    requires Receive(t, Got) !in es && Woken(t) !in es
    ensures Trying(PcOf(x, t))
    decreases |es|
  {
    if es != [] {
      OpenBefore(s, es, x);
      TryingStep(s, es[0], t);
      FetchKeepsTrying(Step(s, es[0]), es[1..], x, t);
    }
  }

  /** In or after a fetch without limit that received nothing the handle has been cleared. */
  ghost predicate GivesUpClosed(s: State) {
    && (forall t :: var pc := PcOf(s, t); pc.FetchClear? && pc.forever && !pc.result ==> !s.open)
    && (forall o :: o in s.outcomes && o.Fetched? && o.attempt == Unlimited && o.code != 1 ==> !s.open)
  }

  /** And only after that does a task hang. */
  ghost predicate HangsClosed(s: State) {
    forall t :: PcOf(s, t).Halted? ==> !s.open
  }

  lemma GivesUpStep(s: State, e: Event)
    requires GivesUpClosed(s) && Enabled(s, e)
    ensures GivesUpClosed(Step(s, e))
  {
    var s' := Step(s, e);
    assert s'.open ==> s.open;
    forall t | var pc := PcOf(s', t); pc.FetchClear? && pc.forever && !pc.result ensures !s'.open {
      if t != e.t { Others(s, e, t); }
    }
  }

  lemma HangsStep(s: State, e: Event)
    requires HangsClosed(s) && Enabled(s, e)
    ensures HangsClosed(Step(s, e))
  {
    var s' := Step(s, e);
    forall t | PcOf(s', t).Halted? ensures !s'.open {
      if t != e.t { Others(s, e, t); }
    }
  }

  lemma {:induction false} RunGivesUpClosed(s: State, es: seq<Event>, x: State)
    requires GivesUpClosed(s) && HangsClosed(s) && IsRun(s, es, x)
    ensures GivesUpClosed(x) && HangsClosed(x)
    decreases |es|
  {
    if es != [] {
      GivesUpStep(s, es[0]);
      HangsStep(s, es[0]);
      RunGivesUpClosed(Step(s, es[0]), es[1..], x);
    }
  }

  /** So in every run of a new mailbox a registered fetch without limit returns without a message only
      after the handle was cleared, and no call hangs before. */
  lemma OnlyFreeGivesUp(capacity: nat, es: seq<Event>, s: State)
    requires IsRun(New(capacity), es, s) && s.open
    ensures forall o :: o in s.outcomes && o.Fetched? && o.attempt == Unlimited ==> o.code == 1
    ensures forall t :: !PcOf(s, t).Halted?
  {
    RunGivesUpClosed(New(capacity), es, s);
  }

  /** A post of message m that has not put it in. */
  predicate Insists(pc: Pc, m: Msg) {
    (pc.Posting? && pc.m == m) || (pc.PostSend? && pc.m == m) || pc == Halted([m])
  }

  lemma InsistsStep(s: State, e: Event, t: Task, m: Msg)
    requires Enabled(s, e) && Insists(PcOf(s, t), m) && e != Send(t, true)
    ensures Insists(PcOf(Step(s, e), t), m)
  {
    if t != e.t { Others(s, e, t); }
  }

  /** A post does not return, and does not change its message, until a send succeeds. */
  lemma {:induction false} PostKeepsTrying(s: State, es: seq<Event>, x: State, t: Task, m: Msg)
    requires IsRun(s, es, x) && Insists(PcOf(s, t), m) && Send(t, true) !in es
    ensures Insists(PcOf(x, t), m)
    decreases |es|
  {
    if es != [] {
      InsistsStep(s, es[0], t, m);
      PostKeepsTrying(Step(s, es[0]), es[1..], x, t, m);
    }
  }

  /** How many receives a task has left in a limited fetch. */
  function Chances(pc: Pc): nat {
    if pc.FetchReceive? then 1 else 0
  }

  predicate NotUnlimited(pc: Pc) {
    !pc.FetchReload? && (pc.FetchReceive? || pc.FetchBlocked? ==> !pc.forever)
  }

  lemma LimitedStep(s: State, e: Event, t: Task)
    requires Enabled(s, e) && NotUnlimited(PcOf(s, t)) && !(e.BeginFetch? && e.t == t)
    ensures NotUnlimited(PcOf(Step(s, e), t))
    ensures Receives([e], t) + Chances(PcOf(Step(s, e), t)) <= Chances(PcOf(s, t))
  {
    if t != e.t { Others(s, e, t); }
    assert Receives([e][1..], t) == 0;
  }

  /** A limited fetch makes one attempt only. */
  lemma {:induction false} LimitedTriesOnce(s: State, es: seq<Event>, x: State, t: Task)
    requires IsRun(s, es, x) && NotUnlimited(PcOf(s, t))
    requires forall k :: 0 <= k < |es| ==> !(es[k].BeginFetch? && es[k].t == t)
    ensures Receives(es, t) <= Chances(PcOf(s, t))
    decreases |es|
  {
    if es != [] {
      LimitedStep(s, es[0], t);
      assert Receives([es[0]][1..], t) == 0;
      LimitedTriesOnce(Step(s, es[0]), es[1..], x, t);
    }
  }

  // ---------------------------------------------------------------- when a call succeeds

  /** A fetch is turned away if and only if the handle is NULL or another task is registered. */
  lemma RefusedIff(s: State, t: Task, forever: bool)
    requires Enabled(s, BeginFetch(t, forever))
    ensures var s' := Step(s, BeginFetch(t, forever));
      && (s.open && s.waiter == None ==>
            s'.waiter == Some(t) && PcOf(s', t) == FetchReceive(forever, []) && s'.outcomes == s.outcomes)
      && (!(s.open && s.waiter == None) ==>
            s'.waiter == s.waiter && PcOf(s', t) == Idle
            && s'.outcomes == s.outcomes + [Fetched(t, Refused, 0xFFFF_FFFF, None, [])])
  {}

  /** A try puts its message behind the queue if and only if there is room, and takes the front of it
      if and only if it is not empty; it does not wait. */
  lemma TrySucceedsIff(s: State, t: Task)
    requires !s.deleted
    ensures Enabled(s, TryPost(t)) ==> var s', m := Step(s, TryPost(t)), PcOf(s, t).m;
      PcOf(s', t) == Idle &&
      if |s.queue| < s.capacity then s'.queue == s.queue + [m] && s'.outcomes == s.outcomes + [TryPosted(t, m, OK, 1)]
      else s'.queue == s.queue && s'.outcomes == s.outcomes + [TryPosted(t, m, MEM, 0)]
    ensures Enabled(s, TryFetch(t)) ==> var s' := Step(s, TryFetch(t));
      PcOf(s', t) == Idle &&
      if |s.queue| > 0
      then [s.queue[0]] + s'.queue == s.queue
        && s'.outcomes == s.outcomes + [TryFetched(t, true, Some(s.queue[0]), [s.queue[0]])]
      else s'.queue == s.queue && s'.outcomes == s.outcomes + [TryFetched(t, false, None, [])]
  {}

  /** The first step of each post and try on an open mailbox takes up the caller's message. */
  lemma CallsStart(s: State, t: Task, m: Msg)
    requires s.open && PcOf(s, t) == Idle
    ensures Insists(PcOf(Step(s, BeginPost(t, m)), t), m)
    ensures PcOf(Step(s, BeginTryPost(t, m)), t) == TryingPost(m)
    ensures PcOf(Step(s, BeginTryFetch(t)), t) == TryingFetch
  {}
}
