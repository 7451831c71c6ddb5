/** The traffic generator of `Eth_TrafficTX.c`: it answers a request frame with a burst of
    numbered frames, each sent once the transmit ring is less than half full. */
module EthTraffic {
  import opened Machine
  import T = EthTransmit
  import P = EthPort

  type byte = x: int | 0 <= x < 256

  const HEAD: nat := 14
  const FRAME_TX_SIZE: nat := 378
  const MAC_SRC: seq<byte> := [0x12, 0x34, 0x56, 0x78, 0x9A, 0xBC]

  function Be16(high: byte, low: byte): (r: nat)
    ensures r < 0x1_0000
  {
    0x100 * (high as int) + low
  }

  /** Four bytes read through a `uint32_t` pointer. */
  function Le32(b0: byte, b1: byte, b2: byte, b3: byte): word {
    Be16(b1, b0) + 0x1_0000 * Be16(b3, b2)
  }

  lemma Le32High(b0: byte, b1: byte, b2: byte, b3: byte)
    ensures Le32(b0, b1, b2, b3) / 0x1_0000 % 0x100 == b2
    ensures Le32(b0, b1, b2, b3) / 0x100_0000 == b3
  {
    var x := Le32(b0, b1, b2, b3);
    DivideUnique(x, Be16(b3, b2), Be16(b1, b0), 0x1_0000);
    DivideUnique(Be16(b3, b2), b3, b2, 0x100);
    DivideUnique(x, b3, 0x1_0000 * (b2 as int) + Be16(b1, b0), 0x100_0000);
  }

  function WordAt(b: seq<byte>, k: nat): word
    requires 4 * k + 4 <= |b|
  {
    Le32(b[4 * k], b[4 * k + 1], b[4 * k + 2], b[4 * k + 3])
  }

  /** The frame the MAC is given when `ETH_SendFrame` is called on the buffer `b`. */
  ghost function AsFrame(b: seq<byte>, len: nat): (f: T.Frame)
    requires |b| == FRAME_TX_SIZE && len <= 368
    ensures T.WellFormed(f) && f.len == len
  {
    T.Frame(len, seq(Words(len), k requires 0 <= k < Words(len) => WordAt(b, 1 + k)))
  }

  /** The first `n` words of the buffer, as the driver copies them. */
  ghost function BufferWords(b: seq<byte>, n: nat): seq<word>
    requires 4 * n <= |b|
  {
    seq(n, k requires 0 <= k < n => WordAt(b, k))
  }

  lemma DataWords(b: seq<byte>, len: nat, n: nat)
    requires |b| == FRAME_TX_SIZE && len <= 368 && Words(len) < n && 4 * n <= FRAME_TX_SIZE
    ensures AsFrame(b, len).words == BufferWords(b, n)[1..1 + Words(len)]
  {}

  lemma ImageFrom(f: T.Frame, d: seq<word>)
    requires |f.words| < |d| && d[0] == f.len && f.words == d[1..1 + |f.words|]
    ensures T.Image(f) <= d
  {
    assert d[..1 + |f.words|] == [d[0]] + d[1..1 + |f.words|];
  }

  /** They start with the image of that frame. */
  lemma BufferIsImage(b: seq<byte>, len: nat, n: nat)
    requires |b| == FRAME_TX_SIZE && len <= 368 && WordAt(b, 0) == len && Words(len) < n && 4 * n <= FRAME_TX_SIZE
    ensures T.Image(AsFrame(b, len)) <= BufferWords(b, n)
  {
    DataWords(b, len, n);
    ImageFrom(AsFrame(b, len), BufferWords(b, n));
  }

  /** The two bytes a receiver finds at the start of the payload of a frame on the wire. */
  function SequenceNumber(f: T.Frame): nat
    requires |f.words| >= 4
  {
    f.words[3] / 0x1_0000 % 0x100 * 0x100 + f.words[3] / 0x100_0000
  }

  /** The first bytes of the answer to a request of frame length `len`: the control word, the two
      addresses and the payload size. */
  ghost predicate IsHead(h: seq<byte>, rx: seq<byte>, len: nat) {
    && |h| == 18 && |rx| >= 18 && 16 <= len <= 368
    && WordAt(h, 0) == len
    && h[4..10] == rx[6..12] && h[10..16] == [0x12, 0x34, 0x56, 0x78, 0x9A, 0xBC]
    && 0x100 * (h[16] as int) + h[17] == len - 14
  }

  /** The answer: its head and the payload. Bytes past the frame keep what they held in `was`. */
  ghost predicate IsAnswer(b: seq<byte>, was: seq<byte>, rx: seq<byte>, len: nat) {
    && |b| == |was| == FRAME_TX_SIZE
    && IsHead(b[..18], rx, len)
    && (forall i :: 18 <= i < 4 + len ==> b[i] == (i - 18) % 256)
    && (forall i :: 4 + len <= i < FRAME_TX_SIZE ==> b[i] == was[i])
  }

  /** The answer with the number of the frame in the first two payload bytes. */
  ghost function Numbered(b: seq<byte>, i: nat): seq<byte>
    requires |b| == FRAME_TX_SIZE
  {
    b[18 := i / 256 % 256][19 := i % 256]
  }

  /** The buffers of a burst that answers `rx`. */
  ghost predicate IsBurst(out: seq<seq<byte>>, was: seq<byte>, rx: seq<byte>, len: nat) {
    && |out| <= 0x1_0000
    && exists b :: IsAnswer(b, was, rx, len) && forall i :: 0 <= i < |out| ==> out[i] == Numbered(b, i)
  }

  lemma TwoBytes(i: nat)
    requires i < 0x1_0000
    ensures i / 256 % 256 * 0x100 + i % 256 == i
  {
    DivideUnique(i / 256, 0, i / 256, 256);
  }

  lemma SequenceInWord(f: T.Frame, b0: byte, b1: byte, b2: byte, b3: byte)
    requires |f.words| >= 4 && f.words[3] == Le32(b0, b1, b2, b3)
    ensures SequenceNumber(f) == (b2 as int) * 0x100 + b3
  {
    Le32High(b0, b1, b2, b3);
  }

  lemma NumberedFrame(b: seq<byte>, len: nat, i: nat)
    requires |b| == FRAME_TX_SIZE && 16 <= len <= 368 && i < 0x1_0000
    ensures |AsFrame(Numbered(b, i), len).words| >= 4
    ensures SequenceNumber(AsFrame(Numbered(b, i), len)) == i
  {
    var n := Numbered(b, i);
    FourthWord(n, len);
    SequenceInWord(AsFrame(n, len), n[16], n[17], n[18], n[19]);
    assert n[18] == i / 256 % 256 && n[19] == i % 256;
    TwoBytes(i);
  }

  /** The data word with the last two bytes of the head and the first two of the payload. */
  lemma FourthWord(b: seq<byte>, len: nat)
    requires |b| == FRAME_TX_SIZE && 16 <= len <= 368
    ensures |AsFrame(b, len).words| >= 4 && AsFrame(b, len).words[3] == Le32(b[16], b[17], b[18], b[19])
  {
    assert AsFrame(b, len).words[3] == WordAt(b, 4);
  }

  class Generator {
    const frameTx: array<byte>
    var frameRx: seq<byte>

    constructor (rx: seq<byte>)
      ensures fresh(frameTx) && frameTx.Length == FRAME_TX_SIZE && frameRx == rx
    {
      frameTx := new byte[FRAME_TX_SIZE];
      frameRx := rx;
    }

    /** The control word, the addresses and the payload size. */
    method FillHead(frameL: nat, payloadL: nat)
      requires frameTx.Length == FRAME_TX_SIZE && |frameRx| >= 18 && 16 <= frameL <= 368 && payloadL == frameL - HEAD
      modifies frameTx
      ensures IsHead(frameTx[..18], frameRx, frameL)
      ensures frameTx[18..] == old(frameTx[18..])
    {
      frameTx[0], frameTx[1], frameTx[2], frameTx[3] := frameL % 256, frameL / 256, 0, 0;
      forall k | 0 <= k < 6 {
        frameTx[4 + k] := frameRx[6 + k];
      }
      forall k | 0 <= k < 6 {
        frameTx[10 + k] := MAC_SRC[k];
      }
      frameTx[16], frameTx[17] := payloadL / 256, payloadL % 256;
      ghost var h := frameTx[..18];
      assert h[4..10] == frameRx[6..12];
      assert h[10..16] == MAC_SRC == [0x12, 0x34, 0x56, 0x78, 0x9A, 0xBC];
    }

    method FillFrameTX(frameL: nat)
      requires frameTx.Length == FRAME_TX_SIZE && |frameRx| >= 18 && 16 <= frameL <= 368
      modifies frameTx
      ensures IsAnswer(frameTx[..], old(frameTx[..]), frameRx, frameL)
    {
      var payloadL := frameL - HEAD;
      ghost var was := frameTx[..];
      FillHead(frameL, payloadL);
      ghost var head := frameTx[..18];
      assert forall k :: 18 <= k < FRAME_TX_SIZE ==> frameTx[k] == frameTx[18..][k - 18] == was[k];
      var i := 0;
      while i < payloadL
        invariant 0 <= i <= payloadL
        invariant frameTx[..18] == head
        invariant forall k :: 18 <= k < 18 + i ==> frameTx[k] == (k - 18) % 256
        invariant forall k :: 18 + i <= k < FRAME_TX_SIZE ==> frameTx[k] == was[k]
      {
        frameTx[18 + i] := i % 256;
        i := i + 1;
      }
      assert frameTx[..][..18] == head;
    }

    /** The burst: `sent` lists the contents of `FrameTx` at each call of `ETH_SendFrame`. The
        busy-wait before each call changes nothing here. */
    method TaskProcess() returns (sent: seq<seq<byte>>, frameL: nat)
      requires frameTx.Length == FRAME_TX_SIZE && |frameRx| >= 18
      requires 16 <= 0x100 * (frameRx[14] as int) + frameRx[15] <= 368
      modifies frameTx
      ensures frameL == 0x100 * (frameRx[14] as int) + frameRx[15]
      ensures var count := 0x100 * (frameRx[16] as int) + frameRx[17];
        |sent| == if count == 0 then 1 else count
      ensures IsBurst(sent, old(frameTx[..]), frameRx, frameL)
    {
      frameL := Be16(frameRx[14], frameRx[15]);
      var frameCount := Be16(frameRx[16], frameRx[17]);
      if frameCount <= 0 {
        frameCount := 1;
      }
      FillFrameTX(frameL);
      ghost var b := frameTx[..];
      sent := [];
      for i := 0 to frameCount
        invariant |sent| == i
        invariant forall k :: 0 <= k < 378 && k != 18 && k != 19 ==> frameTx[k] == b[k]
        invariant forall k :: 0 <= k < i ==> sent[k] == Numbered(b, k)
      {
        frameTx[18] := i / 256 % 256;
        frameTx[19] := i % 256;
        assert frameTx[..] == Numbered(b, i);
        sent := sent + [frameTx[..]];
      }
    }
  }

  /** The copies are the first `n` words of the buffers, as far as they have been sent. */
  ghost predicate Carry(copies: seq<seq<word>>, out: seq<seq<byte>>, n: nat) {
    && 4 * n <= FRAME_TX_SIZE && |copies| <= |out|
    && forall i :: 0 <= i < |copies| ==> |out[i]| == FRAME_TX_SIZE && copies[i] == BufferWords(out[i], n)
  }

  /** The frames are those in the buffers, numbered from 0. */
  ghost predicate IsNumbered(fs: seq<T.Frame>, out: seq<seq<byte>>, len: nat) {
    && len <= 368 && |fs| <= |out|
    && forall i :: 0 <= i < |fs| ==>
         && |out[i]| == FRAME_TX_SIZE && fs[i] == AsFrame(out[i], len)
         && |fs[i].words| >= 4 && SequenceNumber(fs[i]) == i
  }

  lemma FrameOfBuffer(b: seq<byte>, i: nat, len: nat, n: nat, f: T.Frame)
    requires |b| == FRAME_TX_SIZE && WordAt(b, 0) == len && 16 <= len <= 368 && i < 0x1_0000
    requires Words(len) < n && 4 * n <= FRAME_TX_SIZE
    requires T.WellFormed(f) && T.Image(f) <= BufferWords(Numbered(b, i), n)
    ensures f == AsFrame(Numbered(b, i), len) && |f.words| >= 4 && SequenceNumber(f) == i
  {
    var o := Numbered(b, i);
    assert WordAt(o, 0) == WordAt(b, 0);
    BufferIsImage(o, len, n);
    T.OneImage(f, AsFrame(o, len), BufferWords(o, n));
    NumberedFrame(b, len, i);
  }

  /** Sends that copy the buffers of a burst send the frames in them. */
  lemma FramesOfBurst(out: seq<seq<byte>>, was: seq<byte>, rx: seq<byte>, len: nat, n: nat,
                      fs: seq<T.Frame>, copies: seq<seq<word>>)
    requires IsBurst(out, was, rx, len) && Words(len) < n && Carry(copies, out, n) && T.FramesOf(fs, copies)
    ensures IsNumbered(fs, out, len)
  {
    var b :| IsAnswer(b, was, rx, len) && forall i :: 0 <= i < |out| ==> out[i] == Numbered(b, i);
    assert WordAt(b, 0) == WordAt(b[..18], 0);
    forall i | 0 <= i < |fs|
      ensures fs[i] == AsFrame(out[i], len) && |fs[i].words| >= 4 && SequenceNumber(fs[i]) == i
    {
      FrameOfBuffer(b, i, len, n, fs[i]);
    }
  }

  /** The burst `out` that `TaskProcess` sends, as the generator is set up, in FIFO mode: whatever the
      interleaving of its gated sends with the DMA channel and the MAC, the frames on the wire are
      those of the buffers, numbered 0, 1, 2, ..., and every frame handed over is out once the port
      is empty. */
  lemma BurstOnWire(out: seq<seq<byte>>, was: seq<byte>, rx: seq<byte>, len: nat, es: seq<P.Event>, t: P.Port)
    requires IsBurst(out, was, rx, len)
    requires P.IsRun(P.Reset(T.SIZE - 0x1000 / 4), es, t) && Carry(P.Handed(es), out, T.Footprint(len))
    ensures IsNumbered(t.emitted, out, len)
    ensures t.queue + t.pending == [] ==> |t.emitted| == |P.Handed(es)|
  {
    var s := P.Reset(T.SIZE - 0x1000 / 4);
    P.EmitsInOrder(T.SIZE - 0x1000 / 4, es, t);
    P.RunSends(s, es, t);
    assert t.sent[|s.sent|..] == t.sent;
    FramesOfBurst(out, was, rx, len, T.Footprint(len), t.sent, P.Handed(es));
  }

  /** The same burst through the ring, in linear or automatic mode. */
  lemma BurstThroughRing(auto: bool, mem: seq<word>, out: seq<seq<byte>>, was: seq<byte>, rx: seq<byte>, len: nat,
                         es: seq<T.Event>, t: T.Tx)
    requires |mem| == T.SIZE && IsBurst(out, was, rx, len)
    requires T.IsRun(T.Reset(auto, mem, 0x1000 / 4), es, t)
    requires Carry(T.Handed(auto, es), out, T.Footprint(len) - if auto then 0 else 1)
    ensures IsNumbered(t.emitted, out, len)
    ensures t.head == t.tail ==> |t.emitted| == |T.Handed(auto, es)|
  {
    var s := T.Reset(auto, mem, 0x1000 / 4);
    T.EmittedInOrder(auto, mem, 0x1000 / 4, es, t);
    T.RunSends(s, es, t);
    assert t.sent[|s.sent|..] == t.sent;
    FramesOfBurst(out, was, rx, len, T.Footprint(len) - if auto then 0 else 1, t.sent, T.Handed(auto, es));
  }

  /** With the delimiter at 0x1000 every frame up to 1518 bytes may be sent as soon as the ring is
      less than half full. */
  lemma GateAdmits(s: T.Tx, f: T.Frame, last: word)
    requires T.InRange(s) && s.lo == 0x1000 / 4 && T.WellFormed(f) && f.len <= 1518
    ensures T.Enabled(s, T.Send(f, last)) <==> !T.HalfFull(s)
    ensures !T.HalfFull(s) <==> T.Used(s) < 512
  {}
}
