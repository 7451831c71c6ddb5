/** The transmit side of the Ethernet packet memory: the driver writes frames behind `tail`, the
    MAC reads them word by word at `head` and finds the frame boundaries in what it reads.

    Positions count words of the whole packet memory; the transmit ring is `lo .. SIZE`, where
    `4 * lo` is the delimiter register. In linear mode the driver moves the tail, in automatic mode
    the controller does. */
module EthTransmit {
  import opened Machine
  import opened Ring

  /** `ETH_BUFFER_SIZE` in words. */
  const SIZE: nat := 0x800

  /** A frame to send: its length in bytes and its data words. */
  datatype Frame = Frame(len: word, words: seq<word>)

  ghost predicate WellFormed(f: Frame) {
    |f.words| == Words(f.len)
  }

  /** The words the driver copies: the transmission control word, which holds the length, and
      the data. */
  ghost function Image(f: Frame): seq<word> {
    [f.len] + f.words
  }

  /** The words a frame takes up in the ring: its image and one word reserved for the MAC. */
  function Footprint(len: nat): nat {
    Words(len) + 2
  }

  /** Where the driver leaves `X_Tail` when it sends `len` bytes at `tail`. A reserved word that
      is the last word of the memory leaves the register at 0: the mask applied to the pointer
      comes before the comparison that was to catch this. */
  function NextTail(lo: nat, tail: nat, len: nat): (t: nat)
    requires lo <= tail < SIZE && Footprint(len) <= SIZE - lo
    ensures tail + Footprint(len) != SIZE ==>
              lo <= t < SIZE && t - lo == Slot(SIZE - lo, tail - lo, Footprint(len))
    ensures tail + Footprint(len) == SIZE ==> t == 0
  {
    var n := Footprint(len);
    if tail + n < SIZE then tail + n
    else if tail + n == SIZE then 0
    else tail + n - SIZE + lo
  }

  /** What the MAC has read of the frame it is in: `read` words, of which the first was the
      length and the others data. */
  datatype Parser = Parser(read: nat, len: word, words: seq<word>)

  const BOUNDARY: Parser := Parser(0, 0, [])

  datatype Tx = Tx(auto: bool, mem: seq<word>, lo: nat, tail: nat, head: nat, mac: Parser,
                   sent: seq<Frame>, emitted: seq<Frame>)

  /** A send copies the image of a frame, in automatic mode with one more word behind it. */
  datatype Event = Send(f: Frame, last: word) | MacWord

  ghost predicate InRange(s: Tx) {
    |s.mem| == SIZE && s.lo <= s.tail < SIZE && s.lo <= s.head < SIZE
  }

  function Used(s: Tx): nat
    requires s.lo <= s.tail < SIZE && s.lo <= s.head < SIZE
  {
    Distance(SIZE - s.lo, s.head - s.lo, s.tail - s.lo)
  }

  ghost function Contents(s: Tx): seq<word>
    requires InRange(s)
  {
    Read(s.mem, s.lo, SIZE - s.lo, s.head - s.lo, Used(s))
  }

  /** The `X_HALF` flag: half of the ring or more is waiting to be sent. */
  predicate HalfFull(s: Tx)
    requires s.lo <= s.tail < SIZE && s.lo <= s.head < SIZE
  {
    2 * Used(s) >= SIZE - s.lo
  }

  /** A send goes ahead once `X_HALF` has been seen clear; the MAC reads while the pointers
      differ. */
  ghost predicate Enabled(s: Tx, e: Event)
    requires InRange(s)
  {
    match e
    case Send(f, _) => WellFormed(f) && 2 * Footprint(f.len) <= SIZE - s.lo && !HalfFull(s)
    case MacWord => s.head != s.tail
  }

  /** The reserved word of the frame would be the last word of the memory. */
  predicate ExactFit(s: Tx, len: nat) {
    s.tail + Footprint(len) == SIZE
  }

  /** Where that puts the tail outside the ring: in linear mode, by the driver. */
  predicate Strands(s: Tx, len: nat) {
    !s.auto && ExactFit(s, len)
  }

  /** The words a send copies. */
  ghost function Copy(auto: bool, f: Frame, last: word): (d: seq<word>)
    ensures |d| == |f.words| + if auto then 2 else 1
  {
    if auto then Image(f) + [last] else Image(f)
  }

  /** The MAC takes in one word: the length at a frame boundary, then the data, then the reserved
      word, after which the frame is on the wire. */
  function Accept(p: Parser, x: word): Parser {
    if p.read == 0 then Parser(1, x, [])
    else if p.read <= Words(p.len) then Parser(p.read + 1, p.len, p.words + [x])
    else Parser(p.read + 1, p.len, p.words)
  }

  ghost function Step(s: Tx, e: Event): Tx
    requires InRange(s) && Enabled(s, e)
  {
    var w := SIZE - s.lo;
    match e
    case Send(f, last) =>
      s.(mem := Write(s.mem, s.lo, w, s.tail - s.lo, Copy(s.auto, f, last)),
         tail := if s.auto then s.lo + Slot(w, s.tail - s.lo, Footprint(f.len)) else NextTail(s.lo, s.tail, f.len),
         sent := s.sent + [f])
    case MacWord =>
      var p := Accept(s.mac, s.mem[s.head]);
      var s' := s.(head := s.lo + Slot(w, s.head - s.lo, 1));
      if p.read == Footprint(p.len)
      then s'.(mac := BOUNDARY, emitted := s.emitted + [Frame(p.len, p.words)])
      else s'.(mac := p)
  }

  /** The first cells of `c` are the cells of `f` from the `p`-th on; nothing is said about the
      reserved one. */
  ghost predicate Holds(c: seq<word>, f: Frame, p: nat) {
    && WellFormed(f)
    && p < Footprint(f.len) <= |c| + p
    && forall i :: p <= i < |Image(f)| ==> c[i - p] == Image(f)[i]
  }

  /** `c` holds the frames `fs`, of the first of which `p` cells have already been read. */
  ghost predicate Queued(c: seq<word>, fs: seq<Frame>, p: nat)
    decreases |fs|
  {
    if fs == [] then c == [] && p == 0
    else Holds(c, fs[0], p) && Queued(c[Footprint(fs[0].len) - p..], fs[1..], 0)
  }

  lemma HoldsMore(c: seq<word>, f: Frame, p: nat, d: seq<word>)
    requires Holds(c, f, p)
    ensures Holds(c + d, f, p)
  {}

  lemma {:induction false} QueuedAppend(c: seq<word>, fs: seq<Frame>, p: nat, d: seq<word>, f: Frame)
    requires Queued(c, fs, p)
    requires |d| == Footprint(f.len) && WellFormed(f) && Image(f) <= d
    ensures Queued(c + d, fs + [f], p)
    decreases |fs|
  {
    var gs := fs + [f];
    if fs == [] {
      assert c + d == d && d[Footprint(f.len)..] == [] && gs[1..] == [];
      assert Holds(d, f, 0);
    } else {
      var k := Footprint(fs[0].len) - p;
      QueuedAppend(c[k..], fs[1..], 0, d, f);
      assert (c + d)[k..] == c[k..] + d;
      assert gs[0] == fs[0] && gs[1..] == fs[1..] + [f];
      HoldsMore(c, fs[0], p, d);
    }
  }

  /** What the MAC has read so far of frame `f`. */
  ghost predicate Progress(m: Parser, f: Frame)
    requires WellFormed(f)
  {
    && m.read < Footprint(f.len)
    && (0 < m.read < Footprint(f.len) - 1 ==> m.len == f.len && m.words == f.words[..m.read - 1])
    && (m.read == Footprint(f.len) - 1 ==> m.len == f.len && m.words == f.words)
  }

  /** The frames sent are those emitted followed by those lying in the ring, the first of them
      perhaps half read. */
  ghost predicate Fifo(s: Tx) {
    && InRange(s)
    && |s.emitted| <= |s.sent|
    && s.emitted == s.sent[..|s.emitted|]
    && Queued(Contents(s), s.sent[|s.emitted|..], s.mac.read)
    && if |s.emitted| == |s.sent| then s.mac == BOUNDARY
       else WellFormed(s.sent[|s.emitted|]) && Progress(s.mac, s.sent[|s.emitted|])
  }

  /** A send that passed the gate overwrites no word waiting in the ring and nothing of the
      receive ring. */
  lemma SendPreserves(s: Tx, f: Frame, last: word)
    requires InRange(s) && Enabled(s, Send(f, last))
    ensures Step(s, Send(f, last)).mem[..s.lo] == s.mem[..s.lo]
    ensures Read(Step(s, Send(f, last)).mem, s.lo, SIZE - s.lo, s.head - s.lo, Used(s)) == Contents(s)
  {
    ReadBefore(s.mem, s.lo, SIZE - s.lo, s.head - s.lo, Used(s), Copy(s.auto, f, last));
  }

  /** The pointers and the memory after a send that leaves the tail in the ring. */
  ghost predicate Extended(s: Tx, f: Frame, last: word, t: Tx)
    requires InRange(s) && Used(s) + Footprint(f.len) <= SIZE - s.lo && WellFormed(f)
  {
    && InRange(t) && t.lo == s.lo && t.head == s.head && Used(t) == Used(s) + Footprint(f.len)
    && t.mem == Write(s.mem, s.lo, SIZE - s.lo, Slot(SIZE - s.lo, s.head - s.lo, Used(s)), Copy(s.auto, f, last))
  }

  lemma SendPointers(s: Tx, f: Frame, last: word)
    requires InRange(s) && Enabled(s, Send(f, last)) && !Strands(s, f.len)
    ensures Extended(s, f, last, Step(s, Send(f, last)))
  {}

  /** What is in the ring behind the words in use once a copy has been written there. */
  lemma CopyAppends(auto: bool, mem: seq<word>, mem': seq<word>, lo: nat, w: nat, start: nat, m: nat,
                    f: Frame, last: word) returns (d: seq<word>)
    requires lo + w <= |mem| && start < w && WellFormed(f) && m + Footprint(f.len) <= w
    requires mem' == Write(mem, lo, w, Slot(w, start, m), Copy(auto, f, last))
    ensures |d| == Footprint(f.len) && Image(f) <= d
    ensures Read(mem', lo, w, start, m + Footprint(f.len)) == Read(mem, lo, w, start, m) + d
  {
    if auto {
      d := Image(f) + [last];
      Append(mem, lo, w, start, m, d);
    } else {
      var gap := AppendGap(mem, lo, w, start, m, Image(f));
      d := Image(f) + [gap];
    }
  }

  lemma ExtendedContents(s: Tx, f: Frame, last: word, t: Tx) returns (d: seq<word>)
    requires InRange(s) && Used(s) + Footprint(f.len) <= SIZE - s.lo && WellFormed(f) && Extended(s, f, last, t)
    ensures |d| == Footprint(f.len) && Image(f) <= d && Contents(t) == Contents(s) + d
  {
    d := CopyAppends(s.auto, s.mem, t.mem, s.lo, SIZE - s.lo, s.head - s.lo, Used(s), f, last);
  }

  /** What a send adds to the ring: the image of the frame and one more word. */
  lemma SendExtends(s: Tx, f: Frame, last: word) returns (d: seq<word>)
    requires InRange(s) && Enabled(s, Send(f, last)) && !Strands(s, f.len)
    ensures InRange(Step(s, Send(f, last))) && |d| == Footprint(f.len) && Image(f) <= d
    ensures Contents(Step(s, Send(f, last))) == Contents(s) + d
  {
    SendPointers(s, f, last);
    d := ExtendedContents(s, f, last, Step(s, Send(f, last)));
  }

  /** A gated send keeps the queue discipline in automatic mode, and in linear mode if and only if it
      is not an exact fit. */
  lemma SendKeepsFifoIff(s: Tx, f: Frame, last: word)
    requires Fifo(s) && Enabled(s, Send(f, last)) && 0 < s.lo
    ensures Fifo(Step(s, Send(f, last))) <==> !Strands(s, f.len)
  {
    if !Strands(s, f.len) {
      var t := Step(s, Send(f, last));
      var d := SendExtends(s, f, last);
      QueuedAppend(Contents(s), s.sent[|s.emitted|..], s.mac.read, d, f);
      assert t.sent[|t.emitted|..] == s.sent[|s.emitted|..] + [f];
    }
  }

  lemma OneFewer(w: nat, h: nat, t: nat)
    requires h < w && t < w && h != t
    ensures Distance(w, Slot(w, h, 1), t) == Distance(w, h, t) - 1
  {}

  lemma FirstTaken(s: Tx, t: Tx)
    requires InRange(s) && InRange(t) && s.head != s.tail
    requires t.mem == s.mem && t.lo == s.lo && t.tail == s.tail && t.head - s.lo == Slot(SIZE - s.lo, s.head - s.lo, 1)
    ensures Contents(s) == [s.mem[s.head]] + Contents(t)
  {
    var w, h, m := SIZE - s.lo, s.head - s.lo, Used(s);
    ReadFirst(s.mem, s.lo, w, h, m);
    OneFewer(w, h, s.tail - s.lo);
  }

  /** A MAC read takes the first word off the ring. */
  lemma MacTakesFirst(s: Tx)
    requires InRange(s) && Enabled(s, MacWord)
    ensures InRange(Step(s, MacWord))
    ensures Contents(s) == [s.mem[s.head]] + Contents(Step(s, MacWord))
  {
    FirstTaken(s, Step(s, MacWord));
  }

  /** Taking one word off the ring moves the parser one word through the first frame. */
  lemma TakeOne(x: word, c: seq<word>, fs: seq<Frame>, m: Parser)
    requires fs != [] && Queued([x] + c, fs, m.read) && Progress(m, fs[0])
    ensures
      var p := Accept(m, x);
      if p.read == Footprint(p.len)
      then Frame(p.len, p.words) == fs[0] && Queued(c, fs[1..], 0)
      else Queued(c, fs, p.read) && Progress(p, fs[0])
  {
    var f := fs[0];
    var k := Footprint(f.len) - m.read;
    assert ([x] + c)[k..] == c[k - 1..];
    assert m.read < |Image(f)| ==> x == Image(f)[m.read];
    if k > 1 {
      assert Holds(c, f, m.read + 1);
    }
  }

  lemma MacKeepsFifo(s: Tx)
    requires Fifo(s) && Enabled(s, MacWord)
    ensures Fifo(Step(s, MacWord))
  {
    var t := Step(s, MacWord);
    var fs := s.sent[|s.emitted|..];
    assert |Contents(s)| > 0;
    MacTakesFirst(s);
    TakeOne(s.mem[s.head], Contents(t), fs, s.mac);
    assert fs[1..] == s.sent[|s.emitted| + 1..];
    if |t.emitted| > |s.emitted| && |t.emitted| < |t.sent| {
      assert Holds(Contents(t), fs[1..][0], 0);
    }
  }

  ghost predicate IsRun(s: Tx, es: seq<Event>, t: Tx)
    decreases |es|
  {
    if es == [] then s == t
    else
      && InRange(s) && Enabled(s, es[0])
      && (es[0].Send? ==> !Strands(s, es[0].f.len))
      && IsRun(Step(s, es[0]), es[1..], t)
  }

  lemma {:induction false} RunKeepsFifo(s: Tx, es: seq<Event>, t: Tx)
    requires 0 < s.lo && Fifo(s) && IsRun(s, es, t)
    ensures Fifo(t) && t.lo == s.lo && t.mem[..s.lo] == s.mem[..s.lo]
    decreases |es|
  {
    if es != [] {
      match es[0] {
        case Send(f, last) => SendKeepsFifoIff(s, f, last); SendPreserves(s, f, last);
        case MacWord => MacKeepsFifo(s);
      }
      RunKeepsFifo(Step(s, es[0]), es[1..], t);
    }
  }

  ghost function Reset(auto: bool, mem: seq<word>, lo: nat): Tx {
    Tx(auto, mem, lo, lo, lo, BOUNDARY, [], [])
  }

  /** In every interleaving of gated sends with MAC reads from reset, in linear mode without an exact
      fit, the frames on the wire are the frames sent, in order, all of them once the pointers meet,
      and the receive ring is untouched. */
  lemma EmittedInOrder(auto: bool, mem: seq<word>, lo: nat, es: seq<Event>, t: Tx)
    requires |mem| == SIZE && 0 < lo < SIZE && IsRun(Reset(auto, mem, lo), es, t)
    ensures t.emitted <= t.sent && |t.mem| == SIZE
    ensures t.head == t.tail <==> t.emitted == t.sent
    ensures t.mem[..lo] == mem[..lo]
  {
    var s := Reset(auto, mem, lo);
    assert Contents(s) == [];
    RunKeepsFifo(s, es, t);
    assert t.head == t.tail <==> Contents(t) == [];
  }

  /** The words that each send of a run copies. */
  ghost function Handed(auto: bool, es: seq<Event>): seq<seq<word>> {
    if es == [] then []
    else (if es[0].Send? then [Copy(auto, es[0].f, es[0].last)] else []) + Handed(auto, es[1..])
  }

  /** The frames sent are those whose images the copies start with. */
  ghost predicate FramesOf(fs: seq<Frame>, copies: seq<seq<word>>) {
    |fs| == |copies| && forall i :: 0 <= i < |fs| ==> WellFormed(fs[i]) && Image(fs[i]) <= copies[i]
  }

  lemma FramesOfOneMore(f: Frame, d: seq<word>, fs: seq<Frame>, copies: seq<seq<word>>)
    requires FramesOf(fs, copies) && WellFormed(f) && Image(f) <= d
    ensures FramesOf([f] + fs, [d] + copies)
  {}

  lemma {:induction false} RunSends(s: Tx, es: seq<Event>, t: Tx)
    requires IsRun(s, es, t)
    ensures s.sent <= t.sent && FramesOf(t.sent[|s.sent|..], Handed(s.auto, es))
    decreases |es|
  {
    if es != [] {
      var s' := Step(s, es[0]);
      RunSends(s', es[1..], t);
      if es[0].Send? {
        FramesOfOneMore(es[0].f, Copy(s.auto, es[0].f, es[0].last), t.sent[|s'.sent|..], Handed(s.auto, es[1..]));
        assert t.sent[|s.sent|..] == [es[0].f] + t.sent[|s'.sent|..];
      }
    }
  }

  /** A copy starts with the image of one frame only. */
  lemma OneImage(f: Frame, g: Frame, d: seq<word>)
    requires WellFormed(f) && WellFormed(g) && Image(f) <= d && Image(g) <= d
    ensures f == g
  {
    assert f.len == Image(f)[0] == d[0] == Image(g)[0];
    assert f.words == Image(f)[1..] == d[1..|Image(f)|] == Image(g)[1..];
  }

  // ---------------------------------------------------------------- the failing case is reached

  lemma {:induction false} RunsJoin(s: Tx, es: seq<Event>, t: Tx, fs: seq<Event>, u: Tx)
    requires IsRun(s, es, t) && IsRun(t, fs, u)
    ensures IsRun(s, es + fs, u)
    decreases |es|
  {
    if es == [] {
      assert es + fs == fs;
    } else {
      RunsJoin(Step(s, es[0]), es[1..], t, fs, u);
      assert (es + fs)[1..] == es[1..] + fs;
    }
  }

  /** The MAC alone reads the ring empty. */
  lemma {:induction false} Drains(s: Tx) returns (es: seq<Event>, t: Tx)
    requires Fifo(s)
    ensures IsRun(s, es, t) && Fifo(t) && t.head == t.tail == s.tail
    ensures t.lo == s.lo && t.auto == s.auto && t.sent == s.sent
    decreases Used(s)
  {
    if s.head == s.tail {
      es, t := [], s;
    } else {
      MacKeepsFifo(s);
      var u := Step(s, MacWord);
      assert Used(u) == Used(s) - 1;
      es, t := Drains(u);
      es := [MacWord] + es;
    }
  }

  /** A frame sent into an empty ring and read out of it again moves both pointers by its
      footprint. */
  lemma Passes(s: Tx, f: Frame, last: word) returns (es: seq<Event>, t: Tx)
    requires 0 < s.lo && Fifo(s) && s.head == s.tail && Enabled(s, Send(f, last))
    requires s.tail + Footprint(f.len) < SIZE
    ensures IsRun(s, es, t) && Fifo(t)
    ensures t.lo == s.lo && t.auto == s.auto && t.head == t.tail == s.tail + Footprint(f.len) && t.sent == s.sent + [f]
  {
    SendKeepsFifoIff(s, f, last);
    var u := Step(s, Send(f, last));
    es, t := Drains(u);
    es := [Send(f, last)] + es;
  }

  lemma TwicePassed(mem: seq<word>, lo: nat, a: Frame, last: word) returns (es: seq<Event>, s: Tx)
    requires |mem| == SIZE && 0 < lo < SIZE && WellFormed(a) && 2 * Footprint(a.len) < SIZE - lo
    ensures IsRun(Reset(false, mem, lo), es, s) && Fifo(s) && !s.auto
    ensures s.lo == lo && s.head == s.tail == lo + 2 * Footprint(a.len) && s.sent == [a, a]
  {
    var s0 := Reset(false, mem, lo);
    assert Contents(s0) == [];
    var es1, s1 := Passes(s0, a, last);
    var es2, s2 := Passes(s1, a, last);
    RunsJoin(s0, es1, s1, es2, s2);
    es, s := es1 + es2, s2;
  }

  /** With the ring of 4 KiB three frames that are each read out before the next is sent suffice:
      two of 1500 bytes and one of 1072. */
  lemma ExactFitReached(mem: seq<word>, a: Frame, b: Frame, last: word) returns (es: seq<Event>, s: Tx)
    requires |mem| == SIZE && WellFormed(a) && WellFormed(b) && a.len == 1500 && b.len == 1072
    ensures IsRun(Reset(false, mem, 0x400), es, s) && s.sent == [a, a] && s.head == s.tail
    ensures Fifo(s) && Enabled(s, Send(b, last)) && Strands(s, b.len) && NextTail(s.lo, s.tail, b.len) == 0
  {
    es, s := TwicePassed(mem, 0x400, a, last);
  }
}
