/** `ETH_ReceivedFrame` and `ETH_SendFrame`: the copies between a caller's buffer and the packet
    memory, in the three buffer modes of the controller. */
module EthDriver {
  import opened Machine
  import opened Ring
  import R = EthReceive
  import T = EthTransmit
  import D = Dma

  datatype BufferMode = Linear | Automatic | Fifo

  /** The addresses of the two ports of the buffer memory in FIFO mode. */
  const RX_PORT: word := 0x3800_0000
  const TX_PORT: word := 0x3800_0004

  /** `EthReceiverFreeBufferSize` in the receive path: what the subtraction of unsigned registers
      leaves in a signed variable. */
  function Room(delimiter: word, head: word, n: nat): int {
    I32(U32(delimiter - head) - U32(4 * n))
  }

  /** The bound of the loop that copies the part of a frame before the delimiter, computed in
      unsigned arithmetic from the signed room. */
  function FirstPiece(delimiter: word, head: word, n: nat): word {
    U32(U32(U32(4 * n) + U32(Room(delimiter, head, n))) / 4 - 1)
  }

  /** Inside the ring the two pieces are the words before the delimiter and the others. */
  lemma PiecesInsideRing(delimiter: nat, head: nat, n: nat)
    requires head < delimiter <= 0x2000 && head % 4 == delimiter % 4 == 0 && 4 + 4 * n <= delimiter
    ensures Room(delimiter, head, n) == delimiter - head - 4 * n
    ensures FirstPiece(delimiter, head, n) == (delimiter - head) / 4 - 1
  {}

  /** With the head stranded on the delimiter the first loop runs through the whole 32-bit range,
      whatever length the word found there announces. */
  lemma StrandedHeadRunsAway(delimiter: nat, n: nat)
    requires delimiter <= 0x2000 && n <= 0x4000
    ensures Room(delimiter, delimiter, n) <= 0
    ensures FirstPiece(delimiter, delimiter, n) == 0xFFFF_FFFF
  {}

  /** The two pieces of a frame, copied one after the other, are its circular read. */
  lemma PiecesAreRead(mem: seq<word>, buf: seq<word>, w: nat, h: nat, first: nat, second: nat)
    requires w <= |mem| && h < w && first + second < w && first + second <= |buf| && second <= h
    requires if second == 0 then h + 1 + first <= w else first == w - h - 1
    ensures Splice(Splice(buf, 0, mem[h + 1..h + 1 + first]), first, mem[0..second])
         == Splice(buf, 0, Read(mem, 0, w, Slot(w, h, 1), first + second))
  {
    ReadPieces(mem, w, h, first + second);
    SpliceTwice(buf, 0, mem[h + 1..h + 1 + first], mem[0..second]);
    if second == 0 {
      assert mem[h + 1..h + 1 + first] + mem[0..0] == mem[h + 1..h + 1 + first];
    }
  }

  /** The memory after the two loops of the transmit path have laid `data` from word `tail` on: in
      one piece if it ends before the last word, and else with the rest from word `lo` on. */
  ghost function Laid(mem: seq<word>, lo: nat, tail: nat, data: seq<word>): (r: seq<word>)
    requires |mem| == T.SIZE && tail < T.SIZE && |data| <= T.SIZE - lo
    ensures |r| == |mem|
  {
    var room := T.SIZE - tail;
    if |data| < room then Splice(mem, tail, data)
    else Splice(Splice(mem, tail, data[..room]), lo, data[room..])
  }

  lemma LaidStraight(mem: seq<word>, lo: nat, start: nat, data: seq<word>)
    requires |mem| == T.SIZE && start + |data| < T.SIZE - lo
    ensures Laid(mem, lo, lo + start, data) == Write(mem, lo, T.SIZE - lo, start, data)
  {
    WriteStraight(mem, lo, T.SIZE - lo, start, data);
  }

  lemma LaidWrapped(mem: seq<word>, lo: nat, start: nat, data: seq<word>)
    requires |mem| == T.SIZE && start < T.SIZE - lo <= start + |data| && |data| <= T.SIZE - lo
    ensures Laid(mem, lo, lo + start, data) == Write(mem, lo, T.SIZE - lo, start, data)
  {
    WriteWrapped(mem, lo, T.SIZE - lo, start, data);
  }

  /** Inside the transmit ring the two loops are a circular write. */
  lemma LaidIsWrite(mem: seq<word>, lo: nat, start: nat, data: seq<word>)
    requires |mem| == T.SIZE && start < T.SIZE - lo && |data| <= T.SIZE - lo
    ensures Laid(mem, lo, lo + start, data) == Write(mem, lo, T.SIZE - lo, start, data)
  {
    if start + |data| < T.SIZE - lo {
      LaidStraight(mem, lo, start, data);
    } else {
      LaidWrapped(mem, lo, start, data);
    }
  }

  lemma WriteKeepsBelow(mem: seq<word>, lo: nat, w: nat, start: nat, data: seq<word>)
    requires lo + w <= |mem| && start < w && |data| <= w
    ensures Write(mem, lo, w, start, data)[..lo] == mem[..lo]
  {}

  /** What a copy into the packet memory does to it: with the tail inside the transmit ring it is a
      circular write, and nothing in the receive ring changes. */
  ghost predicate Copied(was: seq<word>, now: seq<word>, lo: nat, tail: nat, data: seq<word>)
    requires |was| == |now| == T.SIZE && tail < T.SIZE && |data| <= T.SIZE - lo
  {
    && now == Laid(was, lo, tail, data)
    && (lo <= tail ==> now == Write(was, lo, T.SIZE - lo, tail - lo, data) && now[..lo] == was[..lo])
  }

  lemma LaidIsCopied(mem: seq<word>, lo: nat, tail: nat, data: seq<word>)
    requires |mem| == T.SIZE && tail < T.SIZE && |data| <= T.SIZE - lo
    ensures Copied(mem, Laid(mem, lo, tail, data), lo, tail, data)
  {
    if lo <= tail {
      LaidIsWrite(mem, lo, tail - lo, data);
      WriteKeepsBelow(mem, lo, T.SIZE - lo, tail - lo, data);
    }
  }

  /** From the tail that an exact fit leaves, the next send writes over the receive ring: all of it
      stays as it was if and only if the words sent happen to be the words there. */
  lemma StrandedTailOverwrites(mem: seq<word>, lo: nat, data: seq<word>)
    requires |mem| == T.SIZE && 0 < lo < T.SIZE && |data| <= T.SIZE - lo
    ensures |data| <= lo ==> (Laid(mem, lo, 0, data)[..lo] == mem[..lo] <==> data <= mem)
    ensures |data| > lo ==> (Laid(mem, lo, 0, data)[..lo] == mem[..lo] <==> data[..lo] <= mem)
  {
    var r := Laid(mem, lo, 0, data);
    var k := if |data| <= lo then |data| else lo;
    assert r[..k] == data[..k];
    assert forall i :: k <= i < lo ==> r[i] == mem[i];
    if r[..lo] == mem[..lo] {
      assert data[..k] == r[..lo][..k] == mem[..k];
    }
  }

  lemma InMemory(ptr: nat)
    requires ptr < T.SIZE
    ensures 4 * ptr % 0x2000 == 4 * ptr
  {}

  /** The write pointer moved on by the reserved word and masked: the tail register it leaves. */
  lemma MaskedTail(lo: nat, tail: nat, len: nat, ptr: nat)
    requires tail < T.SIZE && T.Footprint(len) <= T.SIZE - lo
    requires var n := T.Footprint(len) - 1;
      ptr == 1 + if tail + n < T.SIZE then tail + n else tail + n - T.SIZE + lo
    ensures 4 * ptr % 0x2000 == if tail < lo then 4 * (tail + T.Footprint(len)) else 4 * T.NextTail(lo, tail, len)
  {}

  class Mac {
    const mem: array<word>
    var mode: BufferMode
    var delimiter: nat
    var rHead: nat
    var xTail: nat
    var rxFifo: seq<word>
    var txFifo: seq<word>

    constructor (delimiter: nat, mode: BufferMode)
      requires 0 < delimiter < 4 * T.SIZE && delimiter % 4 == 0
      ensures Valid() && this.delimiter == delimiter && this.mode == mode
      ensures rHead == 0 && xTail == delimiter && rxFifo == [] && txFifo == []
      ensures fresh(mem)
    {
      this.mem := new word[T.SIZE];
      this.mode, this.delimiter, this.rHead, this.xTail := mode, delimiter, 0, delimiter;
      this.rxFifo, this.txFifo := [], [];
    }

    /** Registers are word aligned and the delimiter splits the memory in two non-empty rings. */
    ghost predicate Valid()
      reads this
    {
      && mem.Length == T.SIZE
      && 0 < delimiter < 4 * T.SIZE && delimiter % 4 == 0
      && rHead % 4 == 0 && xTail % 4 == 0
    }

    /** The frame announced by the status word at `head` fits the ring and the caller's buffer. */
    ghost predicate FrameFits(room: nat)
      requires Valid()
      reads this, mem
    {
      && rHead < delimiter
      && var n := Words(R.Length(mem[rHead / 4]));
         4 + 4 * n <= delimiter && n <= room
    }

    /** The port holds a whole frame, of a size the DMA channel can move in one cycle. */
    ghost predicate FifoHolds(room: nat)
      reads this
    {
      && |rxFifo| > 0
      && var n := Words(R.Length(rxFifo[0]));
         1 <= n <= 1024 && n < |rxFifo| && n <= room
    }

    /** The loop that copies `count` words from the memory at word `ptr` to `buf[at..]`. */
    method CopyWords(buf: array<word>, at: nat, ptr: nat, count: nat) returns (ptr': nat)
      requires buf != mem && at + count <= buf.Length && ptr + count <= mem.Length
      modifies buf
      ensures buf[..] == Splice(old(buf[..]), at, mem[..][ptr..ptr + count])
      ensures ptr' == ptr + count
    {
      ptr' := ptr;
      for i := 0 to count
        invariant ptr' == ptr + i
        invariant forall k :: 0 <= k < buf.Length ==>
          buf[k] == if at <= k < at + i then mem[ptr + k - at] else old(buf[k])
      {
        buf[at + i] := mem[ptr'];
        ptr' := ptr' + 1;
      }
    }

    /** The sizes of the two pieces, in the arithmetic of the source; `second` is 0 when the frame
        is copied in one piece. */
    static method Pieces(delimiter: nat, head: nat, n: nat) returns (first: nat, second: nat)
      requires head < delimiter <= 0x2000 && head % 4 == delimiter % 4 == 0 && 4 + 4 * n <= delimiter
      ensures first + second == n && second <= head / 4
      ensures second == 0 ==> head / 4 + 1 + n <= delimiter / 4
      ensures second > 0 ==> first == delimiter / 4 - head / 4 - 1
    {
      PiecesInsideRing(delimiter, head, n);
      var room := Room(delimiter, head, n);
      if room > 0 {
        first, second := n, 0;
      } else {
        first := FirstPiece(delimiter, head, n);
        room := 0 - room;
        second := room / 4 + 1;
      }
    }

    /** The copy of the `n` words behind the status word at word `h`, as it stands in the linear and
        again in the automatic branch. The result is the final value of the read pointer. */
    method CopyOut(buf: array<word>, n: nat, w: nat, h: nat) returns (ptr: nat)
      requires h < w <= mem.Length == T.SIZE && n < w && buf != mem && n <= buf.Length
      modifies buf
      ensures buf[..] == Splice(old(buf[..]), 0, Read(mem[..], 0, w, Slot(w, h, 1), n))
      ensures ptr == R.NextHead(w, h, n)
    {
      var first, second := Pieces(4 * w, 4 * h, n);
      PiecesAreRead(mem[..], buf[..], w, h, first, second);
      ptr := CopyWords(buf, 0, h + 1, first);
      if second > 0 {
        ptr := CopyWords(buf, first, 0, second);
      }
    }

    /** A read of a port takes a word from it, whoever reads. */
    method ReadPort(a: word) returns (x: word)
      requires a == 0x3800_0000 && rxFifo != []
      modifies this`rxFifo
      ensures [x] + rxFifo == old(rxFifo)
    {
      x := rxFifo[0];
      rxFifo := rxFifo[1..];
    }

    method WritePort(a: word, x: word)
      requires a == 0x3800_0004
      modifies this`txFifo
      ensures txFifo == old(txFifo) + [x]
    {
      txFifo := txFifo + [x];
    }

    /** `ETH_DMAFrameRx` into the buffer at address `at`: the busy-wait on the mode bits as memory
        shows them, and in each round one transfer of the engine, which reads and writes where the
        descriptor says. */
    method DmaFrameRx(buf: array<word>, at: word, n: nat)
      requires 1 <= n <= 1024 && n <= |rxFifo| && n <= buf.Length && at + 4 * n <= TWO32
      modifies this`rxFifo, buf
      ensures old(rxFifo) == buf[..n] + rxFifo
      ensures buf[n..] == old(buf[..])[n..]
    {
      var d, k := D.FrameRx(at, n, RX_PORT), 0;
      D.FrameRxRuns(at, n, RX_PORT, 0);
      while D.Shown(d, k).control % 4 != 0
        invariant k <= n && (D.Shown(d, k).control % 4 != 0 <==> k < n)
        invariant k < n ==> D.Transfer(D.After(d, k)) == D.Access(RX_PORT, U32(at + 4 * k))
        invariant old(rxFifo) == buf[..k] + rxFifo
        invariant buf[k..] == old(buf[..])[k..]
        decreases n - k
      {
        var a := D.Transfer(D.After(d, k));
        var x := ReadPort(a.src);
        assert (a.dst - at) / 4 == k;
        buf[(a.dst - at) / 4] := x;
        k := k + 1;
        D.FrameRxRuns(at, n, RX_PORT, k);
      }
    }

    /** `ETH_DMAFrameTx` out of the buffer at address `at`. */
    method DmaFrameTx(out: array<word>, at: word, n: nat)
      requires 1 <= n <= 1024 && n <= out.Length && at + 4 * n <= TWO32
      modifies this`txFifo
      ensures txFifo == old(txFifo) + out[..n]
    {
      var d, k := D.FrameTx(TX_PORT, n, at), 0;
      D.FrameTxRuns(TX_PORT, n, at, 0);
      while D.Shown(d, k).control % 4 != 0
        invariant k <= n && (D.Shown(d, k).control % 4 != 0 <==> k < n)
        invariant k < n ==> D.Transfer(D.After(d, k)) == D.Access(U32(at + 4 * k), TX_PORT)
        invariant txFifo == old(txFifo) + out[..k]
        decreases n - k
      {
        var a := D.Transfer(D.After(d, k));
        assert (a.src - at) / 4 == k;
        WritePort(a.dst, out[(a.src - at) / 4]);
        k := k + 1;
        D.FrameTxRuns(TX_PORT, n, at, k);
      }
    }

    /** The status word taken from the port, and the data by the DMA channel. */
    method ReceiveFifo(buf: array<word>, at: word) returns (status: word)
      requires FifoHolds(buf.Length) && at + 4 * buf.Length <= TWO32
      modifies this`rxFifo, buf
      ensures status == old(rxFifo[0])
      ensures var n := (status % 0x1_0000 + 3) / 4;
        n <= buf.Length && old(rxFifo) == [status] + buf[..n] + rxFifo && buf[n..] == old(buf[..])[n..]
    {
      status := ReadPort(RX_PORT);
      var len := R.Length(status);
      var n := (if len % 4 != 0 then 1 else 0) + len / 4;
      assert n == Words(len);
      DmaFrameRx(buf, at, n);
    }

    method ReceiveLinear(buf: array<word>) returns (status: word)
      requires Valid() && buf != mem && FrameFits(buf.Length)
      modifies this`rHead, buf
      ensures status == mem[old(rHead) / 4]
      ensures var n, w, h := (status % 0x1_0000 + 3) / 4, delimiter / 4, old(rHead) / 4;
        && n < w && n <= buf.Length
        && buf[..] == Splice(old(buf[..]), 0, Read(mem[..], 0, w, Slot(w, h, 1), n))
        && rHead == if h + 1 + n <= w then 4 * (h + 1 + n) else 4 * (h + 1 + n - w)
    {
      status := mem[rHead / 4];
      R.FrameInNumbers(mem[..], delimiter / 4, rHead / 4, (status % 0x1_0000 + 3) / 4);
      var ptr := CopyOut(buf, (R.Length(status) + 3) / 4, delimiter / 4, rHead / 4);
      InMemory(ptr);
      rHead := 4 * ptr % 0x2000;
    }

    method ReceiveAutomatic(buf: array<word>) returns (status: word)
      requires Valid() && buf != mem && FrameFits(buf.Length)
      modifies buf
      ensures status == mem[rHead / 4]
      ensures var n, w, h := (status % 0x1_0000 + 3) / 4, delimiter / 4, rHead / 4;
        && n < w && n <= buf.Length
        && buf[..] == Splice(old(buf[..]), 0, Read(mem[..], 0, w, Slot(w, h, 1), n))
    {
      status := mem[rHead / 4];
      R.FrameInNumbers(mem[..], delimiter / 4, rHead / 4, (status % 0x1_0000 + 3) / 4);
      var len := R.Length(status);
      var n := (if len % 4 != 0 then 1 else 0) + len / 4;
      assert n == Words(len);
      var _ := CopyOut(buf, n, delimiter / 4, rHead / 4);
    }

    /** Hands the frame at the head of the receive ring to the caller: its status word as the
        result and the words of a circular read in `buf`. In linear mode the driver moves the head
        itself, in automatic mode the controller does; in FIFO mode the words leave the port. The
        buffer is at address `at`. */
    method ReceivedFrame(buf: array<word>, at: word) returns (status: word)
      requires Valid() && buf != mem && at + 4 * buf.Length <= TWO32
      requires if mode == Fifo then FifoHolds(buf.Length) else FrameFits(buf.Length)
      modifies this`rHead, this`rxFifo, buf
      ensures status == if mode == Fifo then old(rxFifo[0]) else mem[old(rHead) / 4]
      ensures mode != Fifo ==>
        var n, w, h := (status % 0x1_0000 + 3) / 4, delimiter / 4, old(rHead) / 4;
        && n < w && n <= buf.Length && rxFifo == old(rxFifo)
        && buf[..] == Splice(old(buf[..]), 0, Read(mem[..], 0, w, Slot(w, h, 1), n))
        && rHead == if mode == Automatic then old(rHead)
                    else if h + 1 + n <= w then 4 * (h + 1 + n) else 4 * (h + 1 + n - w)
      ensures mode == Fifo ==>
        var n := (status % 0x1_0000 + 3) / 4;
        && n <= buf.Length && rHead == old(rHead)
        && old(rxFifo) == [status] + buf[..n] + rxFifo && buf[n..] == old(buf[..])[n..]
    {
      match mode
      case Linear => status := ReceiveLinear(buf);
      case Automatic => status := ReceiveAutomatic(buf);
      case Fifo => status := ReceiveFifo(buf, at);
    }

    /** The loop that copies `count` words of `out[at..]` to the memory at word `ptr`. */
    method FillWords(out: array<word>, at: nat, ptr: nat, count: nat) returns (ptr': nat)
      requires out != mem && at + count <= out.Length && ptr + count <= mem.Length
      modifies mem
      ensures mem[..] == Splice(old(mem[..]), ptr, out[..][at..at + count])
      ensures ptr' == ptr + count
    {
      ptr' := ptr;
      for i := 0 to count
        invariant ptr' == ptr + i
        invariant forall k :: 0 <= k < mem.Length ==>
          mem[k] == if ptr <= k < ptr + i then out[at + k - ptr] else old(mem[k])
      {
        mem[ptr'] := out[at + i];
        ptr' := ptr' + 1;
      }
    }

    /** The copy of `n` words into the transmit ring at word `tail`, as it stands in the linear and
        again in the automatic branch. The result is the final value of the write pointer. */
    method CopyIn(out: array<word>, n: nat, lo: nat, tail: nat) returns (ptr: nat)
      requires tail < mem.Length == T.SIZE && n <= T.SIZE - lo && out != mem && n <= out.Length
      modifies mem
      ensures Copied(old(mem[..]), mem[..], lo, tail, out[..n])
      ensures ptr == if tail + n < T.SIZE then tail + n else tail + n - T.SIZE + lo
    {
      var room := (0x2000 - 4 * tail) / 4;
      ghost var data := out[..n];
      LaidIsCopied(mem[..], lo, tail, data);
      if n < room {
        ptr := FillWords(out, 0, tail, n);
        assert out[..][0..n] == data;
      } else {
        assert data[..room] == out[..][0..room] && data[room..] == out[..][room..n];
        ptr := FillWords(out, 0, tail, room);
        ptr := FillWords(out, room, lo, n - room);
      }
    }

    method SendLinear(out: array<word>, len: nat)
      requires Valid() && out != mem && T.Footprint(len) - 1 <= out.Length
      requires xTail < 0x2000 && T.Footprint(len) <= T.SIZE - delimiter / 4
      modifies this`xTail, mem
      ensures Copied(old(mem[..]), mem[..], delimiter / 4, old(xTail) / 4, out[..(len + 3) / 4 + 1])
      ensures xTail == if old(xTail) < delimiter then old(xTail) + 4 * ((len + 3) / 4 + 2)
                       else 4 * T.NextTail(delimiter / 4, old(xTail) / 4, len)
    {
      var ptr := CopyIn(out, (len + 3) / 4 + 1, delimiter / 4, xTail / 4);
      ptr := ptr + 1;
      MaskedTail(delimiter / 4, xTail / 4, len, ptr);
      var tail := 4 * ptr % 0x2000;
      if tail >= 0x2000 {
        tail := delimiter;
      }
      xTail := tail;
    }

    /** Queues a frame of `len` bytes, whose image starts with the transmission control word. All
        three modes take up `T.Footprint(len)` words: linear mode writes one fewer and skips one,
        the others write them all. The caller's buffer is at address `at`. */
    method SendFrame(out: array<word>, at: word, len: nat)
      requires Valid() && out != mem && at + 4 * out.Length <= TWO32
      requires T.Footprint(len) <= out.Length + (if mode == Linear then 1 else 0)
      requires mode != Fifo ==> xTail < 0x2000 && T.Footprint(len) <= T.SIZE - delimiter / 4
      requires mode == Fifo ==> T.Footprint(len) <= 1024
      modifies this`xTail, this`txFifo, mem
      ensures mode != Fifo ==>
        && txFifo == old(txFifo)
        && Copied(old(mem[..]), mem[..], delimiter / 4, old(xTail) / 4,
                  out[..(len + 3) / 4 + if mode == Linear then 1 else 2])
      ensures mode == Linear ==>
        xTail == if old(xTail) < delimiter then old(xTail) + 4 * ((len + 3) / 4 + 2)
                 else 4 * T.NextTail(delimiter / 4, old(xTail) / 4, len)
      ensures mode != Linear ==> xTail == old(xTail)
      ensures mode == Fifo ==> txFifo == old(txFifo) + out[..(len + 3) / 4 + 2] && mem[..] == old(mem[..])
    {
      match mode
      case Linear => SendLinear(out, len);
      case Automatic => var _ := CopyIn(out, (len + 3) / 4 + 2, delimiter / 4, xTail / 4);
      case Fifo => DmaFrameTx(out, at, (len + 3) / 4 + 2);
    }
  }
}
