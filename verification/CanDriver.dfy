/** The driver calls on the message buffers, over registers that the controller may glitch. */
module CanDriver {
  import opened Machine
  import opened CanBuffers

  /** What a client gets back for a received message. */
  datatype RxMsg = RxMsg(id: word, overEn: bool, ext: bool, dlc: nat, d0: word, d1: word)

  /** The message in a buffer. */
  function Received(r: Regs, c: Con): RxMsg {
    RxMsg(r.id, c.overEn, Extended(r.dlc), r.dlc % 16, r.dataL, r.dataH)
  }

  /** Reading back inverts the encoding of `CAN_Transmit`. */
  lemma ReadBackInverts(was: Regs, m: Msg, c: Con)
    requires Checked(m) && m.Data?
    ensures Received(Written(was, m), c) == RxMsg(m.id, c.overEn, m.ext, m.dlc, m.d0, m.d1)
  {}

  /** What a client reads from a buffer it armed is the last message received for it, as long as it has
      not released the buffer. */
  lemma ReadsLatest(s: State, es: seq<Event>, x: State, b: nat, overwrite: bool, r: Regs)
    requires Shaped(s) && Enabled(s, Event.Receive(b, overwrite)) && Release(b) !in es
    requires IsRun(Step(s, Event.Receive(b, overwrite)), es, x) && Latest(es, b, s.regs[b]) == r
    ensures Shaped(x)
    ensures Received(x.regs[b], x.con[b])
         == RxMsg(r.id, overwrite, r.dlc / 0x1000 % 2 == 1, r.dlc % 16, r.dataL, r.dataH)
  {
    ReceiveWaits(s, b, overwrite);
    WaitsUntilReleased(Step(s, Event.Receive(b, overwrite)), es, x, b, overwrite);
  }

  /** Whether the first and the second physical read of one register access are glitched to 0. */
  datatype Glitch = Glitch(first: bool, second: bool)

  /** The errata workaround on a register that holds v: a read of 0 is repeated once. */
  method ReadBufferSFR<T(==)>(v: T, zero: T, g: Glitch) returns (r: T)
    ensures r == v <==> v == zero || !(g.first && g.second)
    ensures r == v || r == zero
  {
    r := if g.first then zero else v;
    if r == zero {
      r := if g.second then zero else v;
    }
  }

  class Can {
    const con: array<Con>
    const regs: array<Regs>

    constructor ()
      ensures Valid() && fresh(con) && fresh(regs)
      ensures forall k :: 0 <= k < BUFFERS ==> con[k] == OFF
    {
      con := new Con[BUFFERS](_ => OFF);
      regs := new Regs[BUFFERS](_ => Regs(0, 0, 0, 0));
    }

    ghost predicate Valid() {
      con.Length == regs.Length == BUFFERS
    }

    /** The number of the first disabled buffer, or 32. */
    method GetDisabledBuffer() returns (n: nat)
      requires Valid()
      ensures Finds(con[..], DisabledBuffer, n)
      ensures n <= 32 && (n < 32 ==> !con[n].en) && forall k :: 0 <= k < n ==> con[k].en
    {
      n := 0;
      while n < BUFFERS && con[n].en
        invariant n <= BUFFERS
        invariant forall k :: 0 <= k < n ==> con[k].en
      {
        n := n + 1;
      }
    }

    /** The number of the first enabled buffer for transmission without a request, or 32. */
    method GetEmptyTransferBuffer() returns (n: nat)
      requires Valid()
      ensures Finds(con[..], EmptyTransferBuffer, n)
      ensures n <= 32 && (n < 32 ==> con[n].en && !con[n].txReq && !con[n].rxTxn)
      ensures forall k :: 0 <= k < n ==> !con[k].en || con[k].txReq || con[k].rxTxn
    {
      n := 0;
      while n < BUFFERS && !(con[n].en && !con[n].txReq && !con[n].rxTxn)
        invariant n <= BUFFERS
        invariant forall k :: 0 <= k < n ==> !Qualifies(con[k], EmptyTransferBuffer)
      {
        n := n + 1;
      }
    }

    method Transmit(b: nat, m: Msg)
      requires Valid() && b < BUFFERS && Checked(m) && m.Data?
      modifies con, regs
      ensures con[..] == old(con[..])[b := Requesting(m.prior)]
      ensures con[b] == Con(true, false, false, false, m.prior, true, false, false)
      ensures regs[..] == old(regs[..])[b := Written(old(regs[b]), m)]
    {
      var tmp := if m.ext then 0x1A00 + m.dlc else 0xA00 + m.dlc;
      regs[b] := Regs(tmp, m.id, m.d0, m.d1);
      var c := OFF;
      if m.prior {
        c := c.(prior0 := true);
      }
      con[b] := c.(txReq := true, en := true);
    }

    method SendRTR(b: nat, m: Msg)
      requires Valid() && b < BUFFERS && Checked(m) && m.Remote?
      modifies con, regs
      ensures con[..] == old(con[..])[b := Requesting(m.prior)]
      ensures con[b] == Con(true, false, false, false, m.prior, true, false, false)
      ensures regs[..] == old(regs[..])[b := Written(old(regs[b]), m)]
    {
      var tmp := if m.ext then 0x1A00 else 0xA00;
      regs[b] := regs[b].(dlc := tmp + 0x100, id := m.id);
      var c := OFF;
      if m.prior {
        c := c.(prior0 := true);
      }
      con[b] := c.(txReq := true, en := true);
    }

    method RTRReply(b: nat, m: Msg)
      requires Valid() && b < BUFFERS && Checked(m) && m.Data?
      modifies con, regs
      ensures con[..] == old(con[..])[b := REPLYING]
      ensures con[b] == Con(true, false, false, true, false, false, false, false)
      ensures regs[..] == old(regs[..])[b := Written(old(regs[b]), m)]
    {
      var tmp := if m.ext then 0x1A00 + m.dlc else 0xA00 + m.dlc;
      regs[b] := Regs(tmp, m.id, m.d0, m.d1);
      con[b] := OFF.(rtrEn := true, en := true);
    }

    method Receive(b: nat, overwrite: bool)
      requires Valid() && b < BUFFERS
      modifies con
      ensures con[..] == old(con[..])[b := Receiving(overwrite)]
      ensures con[b] == Con(true, true, overwrite, false, false, false, false, false)
    {
      var c := OFF;
      if overwrite {
        c := c.(overEn := true);
      }
      con[b] := c.(rxTxn := true, en := true);
    }

    method BufferRelease(b: nat)
      requires Valid() && b < BUFFERS
      modifies con
      ensures con[..] == old(con[..])[b := Disabled(old(con[b]))]
      ensures !con[b].en && con[b] == old(con[b]).(en := false)
    {
      con[b] := con[b].(en := false);
    }

    /** The received message, provided that no access has both its reads glitched. */
    method GetRawReceivedData(b: nat, g: seq<Glitch>) returns (m: RxMsg)
      requires Valid() && b < BUFFERS && |g| == 5
      ensures (forall k :: 0 <= k < 5 ==> !(g[k].first && g[k].second)) ==> m == Received(regs[b], con[b])
    {
      var dlc := ReadBufferSFR(regs[b].dlc, 0, g[0]);
      var c := ReadBufferSFR(con[b], OFF, g[1]);
      var id := ReadBufferSFR(regs[b].id, 0, g[2]);
      var d0 := ReadBufferSFR(regs[b].dataL, 0, g[3]);
      var d1 := ReadBufferSFR(regs[b].dataH, 0, g[4]);
      m := RxMsg(id, c.overEn, dlc / 0x1000 % 2 == 1, dlc % 16, d0, d1);
    }
  }
}
