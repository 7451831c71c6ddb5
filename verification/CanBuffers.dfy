/** The 32 message buffers of a CAN controller: what the driver writes in them, what the hardware
    makes of them, and what happens to the messages over whole runs. */
module CanBuffers {
  import opened Machine

  const BUFFERS: nat := 32

  /** The bits of a BUF_CON register. */
  datatype Con = Con(en: bool, rxTxn: bool, overEn: bool, rtrEn: bool,
                     prior0: bool, txReq: bool, rxFull: bool, overWr: bool)

  const OFF: Con := Con(false, false, false, false, false, false, false, false)

  /** What the calls write to it: a request to send, an armed reply, an armed reception, and a
      release, which leaves the other bits. */
  function Requesting(prior: bool): Con {
    OFF.(prior0 := prior, txReq := true, en := true)
  }

  const REPLYING: Con := OFF.(rtrEn := true, en := true)

  function Receiving(overwrite: bool): Con {
    OFF.(overEn := overwrite, rxTxn := true, en := true)
  }

  function Disabled(c: Con): Con {
    c.(en := false)
  }

  /** The registers of one buffer. */
  datatype Regs = Regs(dlc: word, id: word, dataL: word, dataH: word)

  /** A message as a client hands it over. */
  datatype Msg =
    | Data(id: nat, ext: bool, prior: bool, dlc: nat, d0: word, d1: word)
    | Remote(id: nat, ext: bool, prior: bool)

  predicate Checked(m: Msg) {
    m.id <= 0x1FFF_FFFF && (m.Data? ==> m.dlc <= 8)
  }

  /** A frame on the bus. */
  datatype Wire = DataFrame(id: word, ext: bool, dlc: nat, d0: word, d1: word) | RemoteFrame(id: word, ext: bool)

  function WireOf(m: Msg): Wire
    requires Checked(m)
  {
    match m
    case Data(id, ext, _, dlc, d0, d1) => DataFrame(id, ext, dlc, d0, d1)
    case Remote(id, ext, _) => RemoteFrame(id, ext)
  }

  /** The format bits of the DLC register: `CAN_BUF_DLC_STD` or `CAN_BUF_DLC_EXT`. */
  function Format(ext: bool): word {
    if ext then 0x1A00 else 0xA00
  }

  /** What `CAN_Transmit` and `CAN_SendRTR` leave in the registers of a buffer. A remote request
      does not write the data registers. */
  function Written(was: Regs, m: Msg): Regs
    requires Checked(m)
  {
    match m
    case Data(id, ext, _, dlc, d0, d1) => Regs(Format(ext) + dlc, id, d0, d1)
    case Remote(id, ext, _) => was.(dlc := Format(ext) + 0x100, id := id)
  }

  predicate Extended(dlc: word) {
    dlc / 0x1000 % 2 == 1
  }

  /** What the controller puts on the bus for a buffer. */
  function OnWire(r: Regs): Wire {
    if r.dlc / 0x100 % 2 == 1 then RemoteFrame(r.id, Extended(r.dlc))
    else DataFrame(r.id, Extended(r.dlc), r.dlc % 16, r.dataL, r.dataH)
  }

  /** The registers in numbers: bit 8 asks for a remote frame, bit 12 for an extended identifier. */
  lemma WrittenNumbers(was: Regs, m: Msg)
    requires Checked(m)
    ensures Written(was, m).id == m.id
    ensures m.Data? && !m.ext ==> Written(was, m) == Regs(0x0A00 + m.dlc, m.id, m.d0, m.d1)
    ensures m.Data? && m.ext ==> Written(was, m) == Regs(0x1A00 + m.dlc, m.id, m.d0, m.d1)
    ensures m.Remote? && !m.ext ==> Written(was, m) == Regs(0x0B00, m.id, was.dataL, was.dataH)
    ensures m.Remote? && m.ext ==> Written(was, m) == Regs(0x1B00, m.id, was.dataL, was.dataH)
  {}

  /** The frame on the bus is the message, whatever the buffer held before. */
  lemma WrittenIsSent(was: Regs, m: Msg)
    requires Checked(m)
    ensures OnWire(Written(was, m)) == WireOf(m)
  {}

  // ---------------------------------------------------------------- searching for a buffer

  datatype Search = DisabledBuffer | EmptyTransferBuffer

  predicate Qualifies(c: Con, search: Search) {
    match search
    case DisabledBuffer => !c.en
    case EmptyTransferBuffer => c.en && !c.txReq && !c.rxTxn
  }

  /** The least buffer that qualifies, or 32 when there is none. */
  ghost predicate Finds(con: seq<Con>, search: Search, n: nat)
    requires |con| == BUFFERS
  {
    && n <= BUFFERS
    && (n < BUFFERS ==> Qualifies(con[n], search))
    && forall k :: 0 <= k < n ==> !Qualifies(con[k], search)
  }

  predicate Pending(c: Con) {
    c.en && c.txReq && !c.rxTxn
  }

  predicate Armed(c: Con) {
    c.en && c.rxTxn
  }

  predicate Replies(c: Con) {
    c.en && c.rtrEn && !c.txReq && !c.rxTxn
  }

  // ---------------------------------------------------------------- runs

  /** What became of an accepted message. */
  datatype Status = Waiting(buffer: nat) | Sent(at: nat) | Released

  /** The registers, and a ledger: the messages accepted, what became of each, the message each
      buffer was last given, and the frames on the bus with the message each came from. */
  datatype State = State(con: seq<Con>, regs: seq<Regs>, accepted: seq<Msg>, status: seq<Status>,
                         ticket: seq<nat>, bus: seq<Wire>, busTicket: seq<nat>)

  datatype Event =
    | Transmit(search: Search, buffer: nat, m: Msg)
    | Reply(buffer: nat, m: Msg)
    | Receive(buffer: nat, overwrite: bool)
    | Release(buffer: nat)
    | HardwareSent(buffer: nat)
    | HardwareReceived(buffer: nat, r: Regs)

  ghost predicate Shaped(s: State) {
    |s.con| == |s.regs| == |s.ticket| == BUFFERS && |s.status| == |s.accepted| && |s.bus| == |s.busTicket|
  }

  /** Clients transmit only into buffers found by a search, and arm a reception or a reply only in
      a disabled buffer. */
  ghost predicate Enabled(s: State, e: Event)
    requires Shaped(s)
  {
    && e.buffer < BUFFERS
    && match e
       case Transmit(search, b, m) => Finds(s.con, search, b) && Checked(m)
       case Reply(b, m) => Finds(s.con, DisabledBuffer, b) && Checked(m) && m.Data?
       case Receive(b, _) => Finds(s.con, DisabledBuffer, b)
       case Release(b) => true
       case HardwareSent(b) => Pending(s.con[b])
       case HardwareReceived(b, _) => Armed(s.con[b])
  }

  function DoTransmit(s: State, b: nat, m: Msg): State
    requires b < |s.con| && b < |s.regs| && b < |s.ticket| && Checked(m)
  {
    s.(con := s.con[b := Requesting(m.prior)],
       regs := s.regs[b := Written(s.regs[b], m)],
       accepted := s.accepted + [m],
       status := s.status + [Waiting(b)],
       ticket := s.ticket[b := |s.accepted|])
  }

  function DoRelease(s: State, b: nat): State
    requires b < |s.con| && b < |s.ticket|
  {
    s.(con := s.con[b := Disabled(s.con[b])],
       status := if Pending(s.con[b]) && s.ticket[b] < |s.status| then s.status[s.ticket[b] := Released] else s.status)
  }

  function DoSent(s: State, b: nat): State
    requires b < |s.con| && b < |s.regs| && b < |s.ticket|
  {
    s.(con := s.con[b := s.con[b].(txReq := false)],
       status := if s.ticket[b] < |s.status| then s.status[s.ticket[b] := Sent(|s.bus|)] else s.status,
       bus := s.bus + [OnWire(s.regs[b])],
       busTicket := s.busTicket + [s.ticket[b]])
  }

  ghost function Step(s: State, e: Event): State
    requires Shaped(s) && Enabled(s, e)
  {
    match e
    case Transmit(_, b, m) => DoTransmit(s, b, m)
    case Reply(b, m) =>
      s.(con := s.con[b := REPLYING], regs := s.regs[b := Written(s.regs[b], m)])
    case Receive(b, overwrite) => s.(con := s.con[b := Receiving(overwrite)])
    case Release(b) => DoRelease(s, b)
    case HardwareSent(b) => DoSent(s, b)
    case HardwareReceived(b, r) => s.(con := s.con[b := s.con[b].(rxFull := true)], regs := s.regs[b := r])
  }

  /** No transmit ever overwrites a message that waits to be sent or a buffer armed for
      reception; a buffer armed for a reply is safe exactly if it was found by the search for
      disabled buffers. */
  lemma TransmitIsSafe(s: State, search: Search, b: nat, m: Msg)
    requires Shaped(s) && Enabled(s, Transmit(search, b, m))
    ensures !Pending(s.con[b]) && !Armed(s.con[b])
    ensures search == DisabledBuffer ==> !Replies(s.con[b])
    ensures search == EmptyTransferBuffer ==> (Replies(s.con[b]) <==> s.con[b].rtrEn)
  {}

  /** That condition is needed: a reply armed after reset is the first thing the search for an
      empty transfer buffer finds, and the transmit disarms it. */
  lemma EmptySearchTakesReply(regs: seq<Regs>, r: Msg, m: Msg)
    requires |regs| == BUFFERS && Checked(r) && r.Data? && Checked(m)
    ensures var s := Reset(regs);
      && Enabled(s, Reply(0, r)) && Replies(Step(s, Reply(0, r)).con[0])
      && var s' := Step(s, Reply(0, r));
         Enabled(s', Transmit(EmptyTransferBuffer, 0, m))
         && !Replies(Step(s', Transmit(EmptyTransferBuffer, 0, m)).con[0])
  {}

  /** What a transmit leaves waits to be sent with the priority of its message, and what a release
      leaves is free for the next search. */
  lemma RequestedAndReleased(s: State, search: Search, b: nat, m: Msg)
    requires Shaped(s) && b < BUFFERS
    ensures Enabled(s, Transmit(search, b, m)) ==>
      var c := Step(s, Transmit(search, b, m)).con[b];
      Pending(c) && c.prior0 == m.prior && !Armed(c) && !c.rtrEn
    ensures var c := Step(s, Release(b)).con[b];
      && Qualifies(c, DisabledBuffer) && !c.en && !Pending(c) && !Armed(c) && !Replies(c)
      && c == s.con[b].(en := false)
  {}

  /** A reply stands ready with the message it was given, and is not sent of its own accord. */
  lemma ReplyStandsReady(s: State, b: nat, m: Msg)
    requires Shaped(s) && Enabled(s, Reply(b, m))
    ensures var s' := Step(s, Reply(b, m));
      && s'.con[b].en && s'.con[b].rtrEn && !s'.con[b].txReq && !s'.con[b].rxTxn
      && OnWire(s'.regs[b]) == WireOf(m)
  {
    WrittenIsSent(s.regs[b], m);
  }

  /** A buffer that waits for a message is left to wait by both searches. */
  ghost predicate Waits(s: State, b: nat, overwrite: bool)
    requires Shaped(s)
  {
    && b < BUFFERS && s.con[b].en && s.con[b].rxTxn && s.con[b].overEn == overwrite
    && !Qualifies(s.con[b], DisabledBuffer) && !Qualifies(s.con[b], EmptyTransferBuffer)
    && forall r :: Enabled(s, HardwareReceived(b, r))
  }

  /** A reception that is started waits for a message, and holds none yet. */
  lemma ReceiveWaits(s: State, b: nat, overwrite: bool)
    requires Shaped(s) && Enabled(s, Receive(b, overwrite))
    ensures Shaped(Step(s, Receive(b, overwrite))) && Waits(Step(s, Receive(b, overwrite)), b, overwrite)
    ensures !Step(s, Receive(b, overwrite)).con[b].rxFull
  {}

  /** What the buffer holds after the messages it received, the last of them if any. */
  function Latest(es: seq<Event>, b: nat, was: Regs): Regs {
    if es == [] then was
    else Latest(es[1..], b, if es[0].HardwareReceived? && es[0].buffer == b then es[0].r else was)
  }

  predicate Receives(e: Event, b: nat) {
    e.HardwareReceived? && e.buffer == b
  }

  lemma WaitsStep(s: State, e: Event, b: nat, overwrite: bool)
    requires Shaped(s) && Waits(s, b, overwrite) && Enabled(s, e) && e != Release(b)
    ensures Shaped(Step(s, e)) && Waits(Step(s, e), b, overwrite)
    ensures Step(s, e).regs[b] == if Receives(e, b) then e.r else s.regs[b]
    ensures Step(s, e).con[b].rxFull == (Receives(e, b) || s.con[b].rxFull)
  {}

  /** Until it is released it goes on waiting, whatever else happens, and holds the last message the
      controller received for it. */
  lemma {:induction false} WaitsUntilReleased(s: State, es: seq<Event>, x: State, b: nat, overwrite: bool)
    requires Shaped(s) && Waits(s, b, overwrite) && IsRun(s, es, x) && Release(b) !in es
    ensures Shaped(x) && Waits(x, b, overwrite) && x.regs[b] == Latest(es, b, s.regs[b])
    ensures x.con[b].rxFull == (s.con[b].rxFull || exists k :: 0 <= k < |es| && Receives(es[k], b))
    decreases |es|
  {
    if es != [] {
      var s' := Step(s, es[0]);
      WaitsStep(s, es[0], b, overwrite);
      WaitsUntilReleased(s', es[1..], x, b, overwrite);
      assert forall k :: 1 <= k < |es| ==> es[1..][k - 1] == es[k];
    }
  }

  /** Every pending buffer waits with the registers of the message it was last given. */
  ghost predicate SlotsOwned(s: State)
    requires Shaped(s)
  {
    forall b :: 0 <= b < BUFFERS && Pending(s.con[b]) ==>
      s.ticket[b] < |s.accepted| && s.status[s.ticket[b]] == Waiting(b)
  }

  ghost predicate WaitingHeld(s: State)
    requires Shaped(s)
  {
    forall t :: 0 <= t < |s.accepted| && s.status[t].Waiting? ==>
      && s.status[t].buffer < BUFFERS
      && Pending(s.con[s.status[t].buffer]) && s.ticket[s.status[t].buffer] == t
      && Checked(s.accepted[t]) && OnWire(s.regs[s.status[t].buffer]) == WireOf(s.accepted[t])
  }

  /** Every frame on the bus is the message of its ticket, and each ticket is on the bus at most
      once. */
  ghost predicate BusExact(s: State)
    requires Shaped(s)
  {
    && (forall i :: 0 <= i < |s.bus| ==>
         s.busTicket[i] < |s.accepted| && s.status[s.busTicket[i]] == Sent(i)
         && Checked(s.accepted[s.busTicket[i]]) && s.bus[i] == WireOf(s.accepted[s.busTicket[i]]))
    && (forall t :: 0 <= t < |s.accepted| && s.status[t].Sent? ==>
         s.status[t].at < |s.bus| && s.busTicket[s.status[t].at] == t)
  }

  ghost predicate Ledger(s: State) {
    Shaped(s) && SlotsOwned(s) && WaitingHeld(s) && BusExact(s)
  }

  lemma TransmitKeeps(s: State, search: Search, b: nat, m: Msg)
    requires Ledger(s) && Enabled(s, Transmit(search, b, m))
    ensures Ledger(Step(s, Transmit(search, b, m)))
  {
    WrittenIsSent(s.regs[b], m);
  }

  lemma ReleaseKeeps(s: State, b: nat)
    requires Ledger(s) && Enabled(s, Release(b))
    ensures Ledger(Step(s, Release(b)))
  {}

  lemma SentKeeps(s: State, b: nat)
    requires Ledger(s) && Enabled(s, HardwareSent(b))
    ensures Ledger(Step(s, HardwareSent(b)))
  {
    assert WireOf(s.accepted[s.ticket[b]]) == OnWire(s.regs[b]);
  }

  lemma OthersKeep(s: State, e: Event)
    requires Ledger(s) && Enabled(s, e) && (e.Reply? || e.Receive? || e.HardwareReceived?)
    ensures Ledger(Step(s, e))
  {}

  ghost predicate IsRun(s: State, es: seq<Event>, t: State)
    decreases |es|
  {
    if es == [] then s == t
    else Shaped(s) && Enabled(s, es[0]) && IsRun(Step(s, es[0]), es[1..], t)
  }

  lemma {:induction false} RunKeepsLedger(s: State, es: seq<Event>, t: State)
    requires Ledger(s) && IsRun(s, es, t)
    ensures Ledger(t)
    decreases |es|
  {
    if es != [] {
      match es[0] {
        case Transmit(search, b, m) => TransmitKeeps(s, search, b, m);
        case Release(b) => ReleaseKeeps(s, b);
        case HardwareSent(b) => SentKeeps(s, b);
        case _ => OthersKeep(s, es[0]);
      }
      RunKeepsLedger(Step(s, es[0]), es[1..], t);
    }
  }

  /** After `CAN_DeInit` every buffer is off. */
  function Reset(regs: seq<Regs>): State {
    State(seq(BUFFERS, _ => OFF), regs, [], [], seq(BUFFERS, _ => 0), [], [])
  }

  /** Over every run an accepted message waits unaltered in a buffer of its own, or was released
      there, or went out on the bus exactly once and intact; and nothing else went out. */
  lemma ExactlyOnce(regs: seq<Regs>, es: seq<Event>, s: State)
    requires |regs| == BUFFERS && IsRun(Reset(regs), es, s)
    ensures Shaped(s) && WaitingHeld(s) && BusExact(s)
    ensures forall i, j :: 0 <= i < j < |s.bus| ==> s.busTicket[i] != s.busTicket[j]
  {
    RunKeepsLedger(Reset(regs), es, s);
  }
}
