/** The periodic handler of the network stack: four software timers on a 32-bit millisecond clock
    that wraps, and the DHCP state machine that one of them drives. */
module Netconf {
  import opened Machine

  const MAX_DHCP_TRIES: nat := 5
  const TCP_PERIOD: word := 250
  const ARP_PERIOD: word := 1000
  const DHCP_FINE_PERIOD: word := 500
  const DHCP_COARSE_PERIOD: word := 60_000

  /** The test `localtime - Timer >= period` in unsigned arithmetic. */
  predicate Due(now: word, timer: word, period: word) {
    U32(now - timer) >= period
  }

  // ---------------------------------------------------------------- timers in true time

  /** The clock the handler reads at true time t. */
  function Clock(t: nat): word {
    t % TWO32
  }

  /** A software timer after some polls: its register, the true time of the last poll, and the true
      times at which it fired, starting with the boot. */
  datatype Timer = Timer(reg: word, polled: nat, fired: seq<nat>)

  const BOOT: Timer := Timer(0, 0, [0])

  function Poll(s: Timer, period: word, t: nat): Timer {
    if Due(Clock(t), s.reg, period) then Timer(Clock(t), t, s.fired + [t]) else s.(polled := t)
  }

  function PollAll(s: Timer, period: word, ts: seq<nat>): Timer
    decreases |ts|
  {
    if ts == [] then s else PollAll(Poll(s, period, ts[0]), period, ts[1..])
  }

  /** Polls come in order, no more than `gap` apart. */
  ghost predicate Paced(from: nat, ts: seq<nat>, gap: nat)
    decreases |ts|
  {
    ts != [] ==> from <= ts[0] <= from + gap && Paced(ts[0], ts[1..], gap)
  }

  function Last(s: seq<nat>): nat
    requires s != []
  {
    s[|s| - 1]
  }

  /** The wrapped difference is the true one as long as that is below 2^32. */
  lemma WrappedDifference(a: nat, b: nat)
    requires a <= b < a + TWO32
    ensures U32(Clock(b) - Clock(a)) == b - a
  {}

  /** The register is the clock at the last firing, which is less than a period ago, and firings
      are spaced as they should be. */
  ghost predicate OnTime(s: Timer, period: nat, gap: nat) {
    && s.fired != [] && s.reg == Clock(Last(s.fired))
    && Last(s.fired) <= s.polled < Last(s.fired) + period
    && forall i :: 0 <= i < |s.fired| - 1 ==> period <= s.fired[i + 1] - s.fired[i] <= period - 1 + gap
  }

  lemma PollKeepsTime(s: Timer, period: word, gap: nat, t: nat)
    requires 0 < period && period + gap <= TWO32
    requires OnTime(s, period, gap) && s.polled <= t <= s.polled + gap
    ensures OnTime(Poll(s, period, t), period, gap)
  {
    var last := Last(s.fired);
    WrappedDifference(last, t);
    var s' := Poll(s, period, t);
    if t - last >= period {
      assert s' == Timer(Clock(t), t, s.fired + [t]);
      assert last <= s.polled < last + period;
    } else {
      assert s' == s.(polled := t);
    }
  }

  /** For any sequence of polls at most `gap` apart, across any number of clock wraps, a task fires
      no sooner than its period after its last firing and no later than period - 1 + gap. */
  lemma {:induction false} FiresOnTime(s: Timer, period: word, gap: nat, ts: seq<nat>)
    requires 0 < period && period + gap <= TWO32
    requires OnTime(s, period, gap) && Paced(s.polled, ts, gap)
    ensures OnTime(PollAll(s, period, ts), period, gap)
    decreases |ts|
  {
    if ts != [] {
      PollKeepsTime(s, period, gap, ts[0]);
      FiresOnTime(Poll(s, period, ts[0]), period, gap, ts[1..]);
    }
  }

  /** In particular from boot on, where the register is 0 and the clock starts. */
  lemma FiresOnTimeFromBoot(period: word, gap: nat, ts: seq<nat>)
    requires 0 < period && period + gap <= TWO32 && Paced(0, ts, gap)
    ensures OnTime(PollAll(BOOT, period, ts), period, gap)
  {
    FiresOnTime(BOOT, period, gap, ts);
  }

  /** Polls no more than `gap` apart that reach the last moment before the period and then skip to
      the moment of the wrap. */
  ghost function LatePolls(from: nat, period: word, gap: nat): seq<nat>
    requires 0 < gap && from < period
    decreases period - from
  {
    if from == period - 1 then [TWO32]
    else
      var t := if from + gap < period then from + gap else period - 1;
      [t] + LatePolls(t, period, gap)
  }

  /** The task whose period passes between the last two of them is not called: at the wrap the
      clock reads what it read at boot. */
  lemma {:induction false} LatePollsMiss(from: nat, period: word, gap: nat)
    requires from < period && period + gap > TWO32
    ensures Paced(from, LatePolls(from, period, gap), gap)
    ensures PollAll(Timer(0, from, [0]), period, LatePolls(from, period, gap)) == Timer(0, TWO32, [0])
    decreases period - from
  {
    if from < period - 1 {
      var t := if from + gap < period then from + gap else period - 1;
      WrappedDifference(0, t);
      LatePollsMiss(t, period, gap);
    }
  }

  /** A task keeps its time over all polls at most `gap` apart if and only if the period and the
      gap together do not exceed 2^32. */
  lemma KeepsTimeIff(period: word, gap: nat)
    requires 0 < period
    ensures period + gap <= TWO32
       <==> forall ts :: Paced(0, ts, gap) ==> OnTime(PollAll(BOOT, period, ts), period, gap)
  {
    if period + gap <= TWO32 {
      forall ts | Paced(0, ts, gap) ensures OnTime(PollAll(BOOT, period, ts), period, gap) {
        FiresOnTimeFromBoot(period, gap, ts);
      }
    } else {
      LatePollsMiss(0, period, gap);
      assert !OnTime(Timer(0, TWO32, [0]), period, gap);
    }
  }

  // ---------------------------------------------------------------- the handler

  datatype DhcpState = Start | WaitAddress | AddressAssigned | Timeout

  /** The calls the handler makes into the stack. */
  datatype Call = TcpTmr | EtharpTmr | DhcpFineTmr | DhcpCoarseTmr | DhcpStart | DhcpStop | SetStaticAddress

  datatype Net = Net(tcp: word, arp: word, fine: word, coarse: word,
                     dhcp: DhcpState, ipAddress: word, calls: seq<Call>)

  const BOOTED: Net := Net(0, 0, 0, 0, Start, 0, [])

  /** What the handler finds when it runs: the clock, the address of the interface and the number
      of DHCP tries. */
  datatype Input = Input(now: word, addr: word, tries: nat)

  /** `LwIP_DHCP_Process_Handle`. */
  function DhcpProcess(n: Net, i: Input): Net {
    match n.dhcp
    case Start => n.(calls := n.calls + [DhcpStart], ipAddress := 0, dhcp := WaitAddress)
    case WaitAddress =>
      if i.addr != 0 then
        n.(ipAddress := i.addr, dhcp := AddressAssigned, calls := n.calls + [DhcpStop])
      else if i.tries > MAX_DHCP_TRIES then
        n.(ipAddress := 0, dhcp := Timeout, calls := n.calls + [DhcpStop, SetStaticAddress])
      else n.(ipAddress := 0)
    case _ => n
  }

  function TcpPart(n: Net, i: Input): Net {
    if Due(i.now, n.tcp, TCP_PERIOD) then n.(tcp := i.now, calls := n.calls + [TcpTmr]) else n
  }

  function ArpPart(n: Net, i: Input): Net {
    if Due(i.now, n.arp, ARP_PERIOD) then n.(arp := i.now, calls := n.calls + [EtharpTmr]) else n
  }

  function FinePart(n: Net, i: Input): Net {
    if Due(i.now, n.fine, DHCP_FINE_PERIOD) then
      var n' := n.(fine := i.now, calls := n.calls + [DhcpFineTmr]);
      if n'.dhcp != AddressAssigned && n'.dhcp != Timeout then DhcpProcess(n', i) else n'
    else n
  }

  function CoarsePart(n: Net, i: Input): Net {
    if Due(i.now, n.coarse, DHCP_COARSE_PERIOD) then n.(coarse := i.now, calls := n.calls + [DhcpCoarseTmr]) else n
  }

  /** `LwIP_Periodic_Handle`. */
  function Periodic(n: Net, i: Input): Net {
    CoarsePart(FinePart(ArpPart(TcpPart(n, i), i), i), i)
  }

  /** The handler as it runs on the global variables. */
  class Handler {
    var tcpTimer: word
    var arpTimer: word
    var fineTimer: word
    var coarseTimer: word
    var dhcp: DhcpState
    var ipAddress: word
    var calls: seq<Call>

    constructor ()
      ensures State() == BOOTED
    {
      tcpTimer, arpTimer, fineTimer, coarseTimer, dhcp, ipAddress, calls := 0, 0, 0, 0, Start, 0, [];
    }

    function State(): Net
      reads this
    {
      Net(tcpTimer, arpTimer, fineTimer, coarseTimer, dhcp, ipAddress, calls)
    }

    method ProcessDhcp(addr: word, tries: nat)
      modifies this
      ensures forall now :: State() == DhcpProcess(old(State()), Input(now, addr, tries))
    {
      match dhcp
      case Start =>
        calls := calls + [DhcpStart];
        ipAddress := 0;
        dhcp := WaitAddress;
      case WaitAddress =>
        ipAddress := addr;
        if ipAddress != 0 {
          dhcp := AddressAssigned;
          calls := calls + [DhcpStop];
        } else if tries > MAX_DHCP_TRIES {
          dhcp := Timeout;
          calls := calls + [DhcpStop, SetStaticAddress];
        }
      case _ =>
    }

    method PeriodicHandle(now: word, addr: word, tries: nat)
      modifies this
      ensures State() == Periodic(old(State()), Input(now, addr, tries))
    {
      if U32(now - tcpTimer) >= 250 {
        tcpTimer := now;
        calls := calls + [TcpTmr];
      }
      if U32(now - arpTimer) >= ARP_PERIOD {
        arpTimer := now;
        calls := calls + [EtharpTmr];
      }
      if U32(now - fineTimer) >= DHCP_FINE_PERIOD {
        fineTimer := now;
        calls := calls + [DhcpFineTmr];
        if dhcp != AddressAssigned && dhcp != Timeout {
          ProcessDhcp(addr, tries);
        }
      }
      if U32(now - coarseTimer) >= DHCP_COARSE_PERIOD {
        coarseTimer := now;
        calls := calls + [DhcpCoarseTmr];
      }
    }
  }

  // ---------------------------------------------------------------- runs of the handler

  function Run(n: Net, ins: seq<Input>): Net
    decreases |ins|
  {
    if ins == [] then n else Run(Periodic(n, ins[0]), ins[1..])
  }

  function Count(calls: seq<Call>, c: Call): nat {
    if calls == [] then 0 else Count(calls[..|calls| - 1], c) + (if calls[|calls| - 1] == c then 1 else 0)
  }

  lemma CountOne(calls: seq<Call>, d: Call, c: Call)
    ensures Count(calls + [d], c) == Count(calls, c) + (if d == c then 1 else 0)
  {
    assert (calls + [d])[..|calls|] == calls;
  }

  lemma CountTwo(calls: seq<Call>, d: Call, e: Call, c: Call)
    ensures Count(calls + [d, e], c) == Count(calls, c) + (if d == c then 1 else 0) + (if e == c then 1 else 0)
  {
    assert calls + [d, e] == calls + [d] + [e];
    CountOne(calls, d, c);
    CountOne(calls + [d], e, c);
  }

  // ---------------------------------------------------------------- the handler drives the timers

  predicate IsTimer(c: Call) {
    c == TcpTmr || c == EtharpTmr || c == DhcpFineTmr || c == DhcpCoarseTmr
  }

  function RegOf(n: Net, c: Call): word
    requires IsTimer(c)
  {
    if c == TcpTmr then n.tcp else if c == EtharpTmr then n.arp else if c == DhcpFineTmr then n.fine else n.coarse
  }

  function PeriodOf(c: Call): word
    requires IsTimer(c)
  {
    if c == TcpTmr then TCP_PERIOD else if c == EtharpTmr then ARP_PERIOD
    else if c == DhcpFineTmr then DHCP_FINE_PERIOD else DHCP_COARSE_PERIOD
  }

  /** A part of the handler fires timer d, if it is due, and no other. */
  ghost predicate FiresOnly(n: Net, n': Net, d: Call, now: word)
    requires IsTimer(d)
  {
    forall c :: IsTimer(c) ==>
      var due := c == d && Due(now, RegOf(n, c), PeriodOf(c));
      && RegOf(n', c) == (if due then now else RegOf(n, c))
      && Count(n'.calls, c) == Count(n.calls, c) + if due then 1 else 0
  }

  lemma DhcpFiresNone(n: Net, i: Input, c: Call)
    requires IsTimer(c)
    ensures RegOf(DhcpProcess(n, i), c) == RegOf(n, c) && Count(DhcpProcess(n, i).calls, c) == Count(n.calls, c)
  {
    match n.dhcp
    case Start => CountOne(n.calls, DhcpStart, c);
    case WaitAddress =>
      CountOne(n.calls, DhcpStop, c);
      CountTwo(n.calls, DhcpStop, SetStaticAddress, c);
    case _ =>
  }

  lemma PartsFire(n: Net, i: Input)
    ensures FiresOnly(n, TcpPart(n, i), TcpTmr, i.now)
    ensures FiresOnly(n, ArpPart(n, i), EtharpTmr, i.now)
    ensures FiresOnly(n, CoarsePart(n, i), DhcpCoarseTmr, i.now)
  {
    forall c | IsTimer(c) ensures
      && Count(n.calls + [TcpTmr], c) == Count(n.calls, c) + (if c == TcpTmr then 1 else 0)
      && Count(n.calls + [EtharpTmr], c) == Count(n.calls, c) + (if c == EtharpTmr then 1 else 0)
      && Count(n.calls + [DhcpCoarseTmr], c) == Count(n.calls, c) + (if c == DhcpCoarseTmr then 1 else 0)
    {
      CountOne(n.calls, TcpTmr, c);
      CountOne(n.calls, EtharpTmr, c);
      CountOne(n.calls, DhcpCoarseTmr, c);
    }
  }

  lemma FinePartFires(n: Net, i: Input)
    ensures FiresOnly(n, FinePart(n, i), DhcpFineTmr, i.now)
  {
    var n' := n.(fine := i.now, calls := n.calls + [DhcpFineTmr]);
    forall c | IsTimer(c) ensures
      && Count(n'.calls, c) == Count(n.calls, c) + (if c == DhcpFineTmr then 1 else 0)
      && RegOf(DhcpProcess(n', i), c) == RegOf(n', c) && Count(DhcpProcess(n', i).calls, c) == Count(n'.calls, c)
    {
      CountOne(n.calls, DhcpFineTmr, c);
      DhcpFiresNone(n', i, c);
    }
  }

  /** One run of the handler polls each timer once: the register and the number of calls follow the
      timer in true time. */
  lemma HandlerPolls(n: Net, i: Input, c: Call, s: Timer, t: nat)
    requires IsTimer(c) && i.now == Clock(t) && s.reg == RegOf(n, c) && |s.fired| == Count(n.calls, c) + 1
    ensures var s' := Poll(s, PeriodOf(c), t);
      s'.reg == RegOf(Periodic(n, i), c) && |s'.fired| == Count(Periodic(n, i).calls, c) + 1
  {
    var n1 := TcpPart(n, i);
    var n2 := ArpPart(n1, i);
    var n3 := FinePart(n2, i);
    PartsFire(n, i);
    PartsFire(n1, i);
    FinePartFires(n2, i);
    PartsFire(n3, i);
  }

  /** So in every run of the handler at times `ts` each of the four tasks is called exactly when
      its timer fires, and `FiresOnTime` applies to it. */
  lemma {:induction false} HandlerFires(n: Net, ins: seq<Input>, c: Call, s: Timer, ts: seq<nat>)
    requires IsTimer(c) && s.reg == RegOf(n, c) && |s.fired| == Count(n.calls, c) + 1
    requires |ins| == |ts| && forall k :: 0 <= k < |ts| ==> ins[k].now == Clock(ts[k])
    ensures var s' := PollAll(s, PeriodOf(c), ts);
      s'.reg == RegOf(Run(n, ins), c) && |s'.fired| == Count(Run(n, ins).calls, c) + 1
    decreases |ts|
  {
    if ts != [] {
      HandlerPolls(n, ins[0], c, s, ts[0]);
      HandlerFires(Periodic(n, ins[0]), ins[1..], c, Poll(s, PeriodOf(c), ts[0]), ts[1..]);
    }
  }

  // ---------------------------------------------------------------- the DHCP protocol

  /** What the DHCP calls made so far say about the state: none before the start, one start from
      then on, one stop in the two final states, and the static address exactly after a timeout;
      the address is known exactly once it is assigned. */
  ghost predicate Protocol(n: Net) {
    && Count(n.calls, DhcpStart) == (if n.dhcp == Start then 0 else 1)
    && Count(n.calls, DhcpStop) == (if n.dhcp == AddressAssigned || n.dhcp == Timeout then 1 else 0)
    && Count(n.calls, SetStaticAddress) == (if n.dhcp == Timeout then 1 else 0)
    && (n.ipAddress != 0 <==> n.dhcp == AddressAssigned)
  }

  lemma TimerCallKeeps(n: Net, n': Net, c: Call)
    requires Protocol(n) && (c == TcpTmr || c == EtharpTmr || c == DhcpFineTmr || c == DhcpCoarseTmr)
    requires n'.calls == n.calls + [c] && n'.dhcp == n.dhcp && n'.ipAddress == n.ipAddress
    ensures Protocol(n')
  {
    CountOne(n.calls, c, DhcpStart);
    CountOne(n.calls, c, DhcpStop);
    CountOne(n.calls, c, SetStaticAddress);
  }

  lemma DhcpKeeps(n: Net, i: Input)
    requires Protocol(n)
    ensures Protocol(DhcpProcess(n, i))
  {
    forall c ensures
      && Count(n.calls + [DhcpStart], c) == Count(n.calls, c) + (if c == DhcpStart then 1 else 0)
      && Count(n.calls + [DhcpStop], c) == Count(n.calls, c) + (if c == DhcpStop then 1 else 0)
      && Count(n.calls + [DhcpStop, SetStaticAddress], c)
         == Count(n.calls, c) + (if c == DhcpStop || c == SetStaticAddress then 1 else 0)
    {
      CountOne(n.calls, DhcpStart, c);
      CountOne(n.calls, DhcpStop, c);
      CountTwo(n.calls, DhcpStop, SetStaticAddress, c);
    }
  }

  lemma PeriodicKeeps(n: Net, i: Input)
    requires Protocol(n)
    ensures Protocol(Periodic(n, i))
  {
    var n1 := TcpPart(n, i);
    if n1 != n { TimerCallKeeps(n, n1, TcpTmr); }
    var n2 := ArpPart(n1, i);
    if n2 != n1 { TimerCallKeeps(n1, n2, EtharpTmr); }
    var n3 := n2.(fine := i.now, calls := n2.calls + [DhcpFineTmr]);
    TimerCallKeeps(n2, n3, DhcpFineTmr);
    DhcpKeeps(n3, i);
    var n4 := FinePart(n2, i);
    var n5 := CoarsePart(n4, i);
    if n5 != n4 { TimerCallKeeps(n4, n5, DhcpCoarseTmr); }
  }

  lemma {:induction false} RunKeepsProtocol(n: Net, ins: seq<Input>)
    requires Protocol(n)
    ensures Protocol(Run(n, ins))
    decreases |ins|
  {
    if ins != [] {
      PeriodicKeeps(n, ins[0]);
      RunKeepsProtocol(Periodic(n, ins[0]), ins[1..]);
    }
  }

  /** In every run of the handler from boot `dhcp_start` is called at most once and `dhcp_stop` at
      most once and only after it, and the address is nonzero exactly when it is assigned. */
  lemma DhcpFromBoot(ins: seq<Input>)
    ensures Protocol(Run(BOOTED, ins))
  {
    RunKeepsProtocol(BOOTED, ins);
  }

  /** The two final states are never left, nor is the address they ended with. */
  lemma {:induction false} FinalStatesAbsorb(n: Net, ins: seq<Input>)
    requires n.dhcp == AddressAssigned || n.dhcp == Timeout
    ensures Run(n, ins).dhcp == n.dhcp && Run(n, ins).ipAddress == n.ipAddress
    decreases |ins|
  {
    if ins != [] {
      FinalStatesAbsorb(Periodic(n, ins[0]), ins[1..]);
    }
  }

  // ---------------------------------------------------------------- what decides between the outcomes

  /** Whether the fine DHCP timer fires in a run of the handler: half a second has passed. */
  predicate FineFires(n: Net, i: Input) {
    U32(i.now - n.fine) >= 500
  }

  /** The first firing starts DHCP; a later one ends the waiting with the address of the interface if
      there is one, and with a timeout if there is none after more than five tries. */
  lemma NextState(n: Net, i: Input)
    ensures var n' := Periodic(n, i);
      if !FineFires(n, i) then n'.dhcp == n.dhcp && n'.ipAddress == n.ipAddress
      else if n.dhcp == Start then n'.dhcp == WaitAddress && n'.ipAddress == 0
      else if n.dhcp != WaitAddress then n'.dhcp == n.dhcp && n'.ipAddress == n.ipAddress
      else if i.addr != 0 then n'.dhcp == AddressAssigned && n'.ipAddress == i.addr
      else if i.tries > 5 then n'.dhcp == Timeout && n'.ipAddress == 0
      else n'.dhcp == WaitAddress && n'.ipAddress == 0
  {}

  /** Some input of the run had no address after more than five tries. */
  ghost predicate SomeFailure(ins: seq<Input>) {
    exists k :: 0 <= k < |ins| && ins[k].addr == 0 && ins[k].tries > 5
  }

  ghost predicate SomeAddress(ins: seq<Input>, a: word) {
    exists k :: 0 <= k < |ins| && ins[k].addr == a && a != 0
  }

  lemma SomeLater(ins: seq<Input>)
    requires ins != []
    ensures SomeFailure(ins) <==> (ins[0].addr == 0 && ins[0].tries > 5) || SomeFailure(ins[1..])
    ensures forall a :: SomeAddress(ins, a) <==> (ins[0].addr == a && a != 0) || SomeAddress(ins[1..], a)
  {
    assert ins == [ins[0]] + ins[1..];
    forall a ensures SomeAddress(ins, a) <==> (ins[0].addr == a && a != 0) || SomeAddress(ins[1..], a) {
      if SomeAddress(ins[1..], a) {
        var k :| 0 <= k < |ins[1..]| && ins[1..][k].addr == a;
        assert ins[k + 1].addr == a;
      }
      if SomeAddress(ins, a) && ins[0].addr != a {
        var k :| 0 <= k < |ins| && ins[k].addr == a;
        assert ins[1..][k - 1].addr == a;
      }
    }
    if SomeFailure(ins[1..]) {
      var k :| 0 <= k < |ins[1..]| && ins[1..][k].addr == 0 && ins[1..][k].tries > 5;
      assert ins[k + 1].addr == 0 && ins[k + 1].tries > 5;
    }
    if SomeFailure(ins) && !(ins[0].addr == 0 && ins[0].tries > 5) {
      var k :| 0 <= k < |ins| && ins[k].addr == 0 && ins[k].tries > 5;
      assert ins[1..][k - 1].addr == 0 && ins[1..][k - 1].tries > 5;
    }
  }

  /** A run that began before the outcome times out only on some such input, and settles on an address
      only if some input had it; so with neither it is still waiting. */
  lemma {:induction false} OutcomeHasCause(n: Net, ins: seq<Input>)
    requires n.dhcp == Start || n.dhcp == WaitAddress
    ensures Run(n, ins).dhcp == Timeout ==> SomeFailure(ins)
    ensures Run(n, ins).dhcp == AddressAssigned ==> SomeAddress(ins, Run(n, ins).ipAddress)
    decreases |ins|
  {
    if ins != [] {
      var n' := Periodic(n, ins[0]);
      NextState(n, ins[0]);
      SomeLater(ins);
      if n'.dhcp == Start || n'.dhcp == WaitAddress {
        OutcomeHasCause(n', ins[1..]);
      } else {
        FinalStatesAbsorb(n', ins[1..]);
      }
    }
  }

  /** DHCP is started by the first firing of the fine timer and not before. */
  lemma {:induction false} StartedByFirstFiring(n: Net, ins: seq<Input>)
    requires n.dhcp == Start <==> Count(n.calls, DhcpFineTmr) == 0
    ensures Run(n, ins).dhcp == Start <==> Count(Run(n, ins).calls, DhcpFineTmr) == 0
    decreases |ins|
  {
    if ins != [] {
      var n' := Periodic(n, ins[0]);
      NextState(n, ins[0]);
      FineCounted(n, ins[0]);
      StartedByFirstFiring(n', ins[1..]);
    }
  }

  lemma FineCounted(n: Net, i: Input)
    ensures Count(Periodic(n, i).calls, DhcpFineTmr) == Count(n.calls, DhcpFineTmr) + if FineFires(n, i) then 1 else 0
  {
    var n1 := TcpPart(n, i);
    var n2 := ArpPart(n1, i);
    var n3 := FinePart(n2, i);
    PartsFire(n, i);
    PartsFire(n1, i);
    FinePartFires(n2, i);
    PartsFire(n3, i);
  }

  /** In every run of the handler from boot: nothing is started before the fine timer first fires; from
      then on the state is the timeout only if some input had no address after more than five tries,
      it is the assigned address only if some input had that, and with neither it waits. */
  lemma OutcomeFromBoot(ins: seq<Input>)
    ensures var x := Run(BOOTED, ins);
      && (x.dhcp == Start <==> Count(x.calls, DhcpFineTmr) == 0)
      && (x.dhcp == Timeout ==> SomeFailure(ins))
      && (x.dhcp == AddressAssigned ==> SomeAddress(ins, x.ipAddress))
      && ((forall k :: 0 <= k < |ins| ==> ins[k].addr == 0 && ins[k].tries <= 5) ==>
            x.dhcp == if Count(x.calls, DhcpFineTmr) == 0 then Start else WaitAddress)
  {
    OutcomeHasCause(BOOTED, ins);
    StartedByFirstFiring(BOOTED, ins);
  }

  // ---------------------------------------------------------------- the four tasks

  /** The periods of the four tasks, in milliseconds. */
  predicate HasPeriod(c: Call, p: word) {
    || (c == TcpTmr && p == 250) || (c == EtharpTmr && p == 1000)
    || (c == DhcpFineTmr && p == 500) || (c == DhcpCoarseTmr && p == 60_000)
  }

  /** In every run of the handler from boot, polled at least every 2^32 - 60000 ms, each task is called
      once for each firing of a timer that keeps its period. */
  lemma TasksOnTime(ins: seq<Input>, ts: seq<nat>, gap: nat, c: Call, p: word) returns (s: Timer)
    requires HasPeriod(c, p) && gap <= 0x1_0000_0000 - 60_000 && Paced(0, ts, gap)
    requires |ins| == |ts| && forall k :: 0 <= k < |ts| ==> ins[k].now == Clock(ts[k])
    ensures OnTime(s, p, gap) && |s.fired| == Count(Run(BOOTED, ins).calls, c) + 1
  {
    s := PollAll(BOOT, p, ts);
    HandlerFires(BOOTED, ins, c, BOOT, ts);
    FiresOnTimeFromBoot(p, gap, ts);
  }
}
