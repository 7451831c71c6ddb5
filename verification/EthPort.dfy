/** The transmit side in FIFO mode, where the packet memory is behind a port: the words a DMA channel
    writes join a queue, from which the MAC reads as it does from the ring, also while the channel is
    at work. */
module EthPort {
  import opened Machine
  import T = EthTransmit

  /** `pending` are the words the channel has still to write. */
  datatype Port = Port(queue: seq<word>, pending: seq<word>, capacity: nat, mac: T.Parser,
                       sent: seq<T.Frame>, emitted: seq<T.Frame>)

  /** A send starts the channel on the image of the frame and one more word of the caller's buffer. */
  datatype Event = Send(f: T.Frame, last: word) | DmaWord | MacWord

  predicate HalfFull(s: Port) {
    2 * |s.queue| >= s.capacity
  }

  /** The driver waits for the channel to finish and for the half flag to clear before it sends. */
  ghost predicate Enabled(s: Port, e: Event) {
    match e
    case Send(f, _) =>
      T.WellFormed(f) && 2 * T.Footprint(f.len) <= s.capacity && s.pending == [] && !HalfFull(s)
    case DmaWord => s.pending != []
    case MacWord => s.queue != []
  }

  ghost function Step(s: Port, e: Event): Port
    requires Enabled(s, e)
  {
    match e
    case Send(f, last) => s.(pending := T.Image(f) + [last], sent := s.sent + [f])
    case DmaWord => s.(queue := s.queue + [s.pending[0]], pending := s.pending[1..])
    case MacWord =>
      var p := T.Accept(s.mac, s.queue[0]);
      var s' := s.(queue := s.queue[1..]);
      if p.read == T.Footprint(p.len)
      then s'.(mac := T.BOUNDARY, emitted := s.emitted + [T.Frame(p.len, p.words)])
      else s'.(mac := p)
  }

  ghost predicate IsRun(s: Port, es: seq<Event>, t: Port)
    decreases |es|
  {
    if es == [] then s == t
    else Enabled(s, es[0]) && IsRun(Step(s, es[0]), es[1..], t)
  }

  ghost predicate Fifo(s: Port) {
    && |s.queue + s.pending| <= s.capacity
    && |s.emitted| <= |s.sent|
    && s.emitted == s.sent[..|s.emitted|]
    && T.Queued(s.queue + s.pending, s.sent[|s.emitted|..], s.mac.read)
    && if |s.emitted| == |s.sent| then s.mac == T.BOUNDARY
       else T.WellFormed(s.sent[|s.emitted|]) && T.Progress(s.mac, s.sent[|s.emitted|])
  }

  lemma SendKeeps(s: Port, f: T.Frame, last: word)
    requires Fifo(s) && Enabled(s, Send(f, last))
    ensures Fifo(Step(s, Send(f, last)))
  {
    var t := Step(s, Send(f, last));
    assert s.queue + s.pending == s.queue;
    T.QueuedAppend(s.queue, s.sent[|s.emitted|..], s.mac.read, T.Image(f) + [last], f);
    assert t.sent[|t.emitted|..] == s.sent[|s.emitted|..] + [f];
  }

  lemma DmaKeeps(s: Port)
    requires Fifo(s) && Enabled(s, DmaWord)
    ensures Fifo(Step(s, DmaWord))
  {
    var t := Step(s, DmaWord);
    assert t.queue + t.pending == s.queue + s.pending;
  }

  lemma WordKeeps(s: Port)
    requires Fifo(s) && Enabled(s, MacWord)
    ensures Fifo(Step(s, MacWord))
  {
    var t := Step(s, MacWord);
    var fs := s.sent[|s.emitted|..];
    assert s.queue + s.pending == [s.queue[0]] + (t.queue + t.pending);
    T.TakeOne(s.queue[0], t.queue + t.pending, fs, s.mac);
    assert fs[1..] == s.sent[|s.emitted| + 1..];
    if |t.emitted| > |s.emitted| && |t.emitted| < |t.sent| {
      assert T.Holds(t.queue + t.pending, fs[1..][0], 0);
    }
  }

  lemma {:induction false} RunKeeps(s: Port, es: seq<Event>, t: Port)
    requires Fifo(s) && IsRun(s, es, t)
    ensures Fifo(t) && t.capacity == s.capacity
    decreases |es|
  {
    if es != [] {
      match es[0] {
        case Send(f, last) => SendKeeps(s, f, last);
        case DmaWord => DmaKeeps(s);
        case MacWord => WordKeeps(s);
      }
      RunKeeps(Step(s, es[0]), es[1..], t);
    }
  }

  ghost function Reset(capacity: nat): Port {
    Port([], [], capacity, T.BOUNDARY, [], [])
  }

  /** In every interleaving of gated sends, writes of the channel and reads of the MAC the port never
      overflows, and the frames on the wire are the frames sent, in order, all of them once the
      channel is done and the port empty. No frame length is special here. */
  lemma EmitsInOrder(capacity: nat, es: seq<Event>, t: Port)
    requires IsRun(Reset(capacity), es, t)
    ensures |t.queue| <= capacity
    ensures t.emitted <= t.sent
    ensures t.queue + t.pending == [] <==> t.emitted == t.sent
  {
    RunKeeps(Reset(capacity), es, t);
  }

  /** The words that each send of a run hands to the channel. */
  ghost function Handed(es: seq<Event>): seq<seq<word>> {
    if es == [] then []
    else (if es[0].Send? then [T.Image(es[0].f) + [es[0].last]] else []) + Handed(es[1..])
  }

  lemma {:induction false} RunSends(s: Port, es: seq<Event>, t: Port)
    requires IsRun(s, es, t)
    ensures s.sent <= t.sent && T.FramesOf(t.sent[|s.sent|..], Handed(es))
    decreases |es|
  {
    if es != [] {
      var s' := Step(s, es[0]);
      RunSends(s', es[1..], t);
      if es[0].Send? {
        T.FramesOfOneMore(es[0].f, T.Image(es[0].f) + [es[0].last], t.sent[|s'.sent|..], Handed(es[1..]));
        assert t.sent[|s.sent|..] == [es[0].f] + t.sent[|s'.sent|..];
      }
    }
  }
}
