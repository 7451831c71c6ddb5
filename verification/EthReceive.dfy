/** The receive side of the Ethernet packet memory, as a system of two parties: the MAC stores
    arriving frames behind `tail`, the driver takes them out at `head`.

    Positions count words. The receive ring is the first `w` words of the packet memory, where
    `4 * w` is the delimiter register. In linear mode the driver moves the head, in automatic mode
    the controller does. */
module EthReceive {
  import opened Machine
  import opened Ring

  /** The `Length` bit-field of a reception status word. */
  function Length(status: word): nat {
    status % 0x1_0000
  }

  datatype Frame = Frame(status: word, words: seq<word>)

  ghost predicate WellFormed(f: Frame) {
    |f.words| == Words(Length(f.status))
  }

  /** A frame as it lies in the ring: its status word and then its data words. */
  ghost function Image(f: Frame): seq<word> {
    [f.status] + f.words
  }

  ghost function Images(fs: seq<Frame>): seq<word> {
    if fs == [] then [] else Image(fs[0]) + Images(fs[1..])
  }

  lemma Associate(a: seq<word>, b: seq<word>, c: seq<word>)
    ensures a + b + c == a + (b + c)
  {}

  lemma {:induction false} ImagesAppend(fs: seq<Frame>, f: Frame)
    ensures Images(fs + [f]) == Images(fs) + Image(f)
  {
    var gs := fs + [f];
    if fs == [] {
      assert gs[1..] == [] && Images(gs) == Image(f) + [];
    } else {
      assert gs[0] == fs[0] && gs[1..] == fs[1..] + [f];
      ImagesAppend(fs[1..], f);
      Associate(Image(fs[0]), Images(fs[1..]), Image(f));
    }
  }

  /** Where the driver leaves `R_Head` after a frame of `n` words at `head`. A frame whose last
      word is the last word of the ring leaves it on the delimiter, one past the ring. */
  function NextHead(w: nat, head: nat, n: nat): (h: nat)
    requires head < w && 1 + n <= w
    ensures h < w <==> head + 1 + n != w
    ensures h <= w
  {
    if head + 1 + n <= w then head + 1 + n else head + 1 + n - w
  }

  /** The new head is congruent to the end of the frame modulo the ring. */
  lemma NextHeadCongruent(w: nat, head: nat, n: nat)
    requires head < w && 1 + n <= w
    ensures NextHead(w, head, n) % w == (head + 1 + n) % w
  {
    if head + 1 + n > w {
      DivideUnique(head + 1 + n, 1, head + 1 + n - w, w);
      DivideUnique(head + 1 + n - w, 0, head + 1 + n - w, w);
    }
  }

  /** The mode, the packet memory, the two pointers, and what has gone through them since reset. */
  datatype Rx = Rx(auto: bool, mem: seq<word>, w: nat, head: nat, tail: nat,
                   arrived: seq<Frame>, delivered: seq<Frame>)

  datatype Event = Arrive(f: Frame) | Fetch

  ghost predicate InRange(s: Rx) {
    0 < s.w <= |s.mem| && s.head < s.w && s.tail < s.w
  }

  function Used(s: Rx): nat
    requires s.head < s.w && s.tail < s.w
  {
    Distance(s.w, s.head, s.tail)
  }

  ghost function Contents(s: Rx): seq<word>
    requires InRange(s)
  {
    Read(s.mem, 0, s.w, s.head, Used(s))
  }

  function Payload(s: Rx): nat
    requires s.head < |s.mem|
  {
    Words(Length(s.mem[s.head]))
  }

  /** The MAC stores a frame only if a free word remains afterwards; the driver fetches when its
      poll sees the pointers differ. */
  ghost predicate Enabled(s: Rx, e: Event)
    requires InRange(s)
  {
    match e
    case Arrive(f) => WellFormed(f) && Used(s) + |Image(f)| < s.w
    case Fetch => s.head != s.tail && 1 + Payload(s) <= s.w
  }

  /** The frame at the head of the ring ends exactly on the delimiter. */
  predicate EndsOnDelimiter(s: Rx)
    requires s.head < |s.mem|
  {
    s.head + 1 + Payload(s) == s.w
  }

  /** Where that puts the head one past the ring: in linear mode, by the driver. */
  predicate Strands(s: Rx)
    requires s.head < |s.mem|
  {
    !s.auto && EndsOnDelimiter(s)
  }

  /** The frame a circular read finds behind the status word at `head`. */
  ghost function FrameAt(mem: seq<word>, w: nat, head: nat): Frame
    requires head < w <= |mem| && 1 + Words(Length(mem[head])) <= w
  {
    Frame(mem[head], Read(mem, 0, w, Slot(w, head, 1), Words(Length(mem[head]))))
  }

  ghost function Step(s: Rx, e: Event): Rx
    requires InRange(s) && Enabled(s, e)
  {
    match e
    case Arrive(f) =>
      s.(mem := Write(s.mem, 0, s.w, s.tail, Image(f)),
         tail := Slot(s.w, s.tail, |Image(f)|),
         arrived := s.arrived + [f])
    case Fetch =>
      s.(head := if s.auto then Slot(s.w, s.head, 1 + Payload(s)) else NextHead(s.w, s.head, Payload(s)),
         delivered := s.delivered + [FrameAt(s.mem, s.w, s.head)])
  }

  ghost predicate IsRun(s: Rx, es: seq<Event>, t: Rx)
    decreases |es|
  {
    if es == [] then s == t
    else
      && InRange(s) && Enabled(s, es[0])
      && (es[0].Fetch? ==> !Strands(s))
      && IsRun(Step(s, es[0]), es[1..], t)
  }

  /** The frames that have arrived are those delivered followed by those lying in the ring. */
  ghost predicate Fifo(s: Rx) {
    && InRange(s)
    && |s.delivered| <= |s.arrived|
    && s.delivered == s.arrived[..|s.delivered|]
    && Contents(s) == Images(s.arrived[|s.delivered|..])
    && forall f :: f in s.arrived ==> WellFormed(f)
  }

  /** A ring whose contents start with the image of a frame has that frame at its head. */
  lemma HeadOfImage(mem: seq<word>, w: nat, h: nat, m: nat, f: Frame, rest: seq<word>)
    requires h < w <= |mem| && m < w && WellFormed(f) && Read(mem, 0, w, h, m) == Image(f) + rest
    ensures mem[h] == f.status && 1 + |f.words| <= m && Words(Length(mem[h])) == |f.words|
    ensures FrameAt(mem, w, h) == f
    ensures Read(mem, 0, w, Slot(w, h, 1 + |f.words|), m - (1 + |f.words|)) == rest
  {
    var n, c := |f.words|, Read(mem, 0, w, h, m);
    assert |c| == 1 + n + |rest| && c[0] == mem[h];
    ReadSplit(mem, 0, w, h, 1 + n, m - (1 + n));
    ReadSplit(mem, 0, w, h, 1, n);
    assert Read(mem, 0, w, h, 1 + n) == c[..1 + n] == Image(f);
    assert Image(f)[1..] == f.words;
    assert c[1 + n..] == rest;
  }

  /** Whenever the poll sees a frame, the whole of it lies in the ring and it is the oldest one
      not yet delivered. */
  lemma FetchIsOldest(s: Rx)
    requires Fifo(s) && s.head != s.tail
    ensures |s.delivered| < |s.arrived|
    ensures 1 + Payload(s) <= Used(s)
    ensures FrameAt(s.mem, s.w, s.head) == s.arrived[|s.delivered|]
    ensures Read(s.mem, 0, s.w, Slot(s.w, s.head, 1 + Payload(s)), Used(s) - (1 + Payload(s)))
         == Images(s.arrived[|s.delivered| + 1..])
  {
    var queue := s.arrived[|s.delivered|..];
    assert |Contents(s)| == Used(s) > 0;
    assert queue != [];
    var f := queue[0];
    assert f == s.arrived[|s.delivered|] && f in s.arrived;
    assert queue[1..] == s.arrived[|s.delivered| + 1..];
    HeadOfImage(s.mem, s.w, s.head, Used(s), f, Images(queue[1..]));
  }

  lemma ArriveKeepsFifo(s: Rx, f: Frame)
    requires Fifo(s) && Enabled(s, Arrive(f))
    ensures Fifo(Step(s, Arrive(f)))
  {
    var t := Step(s, Arrive(f));
    Append(s.mem, 0, s.w, s.head, Used(s), Image(f));
    assert Used(t) == Used(s) + |Image(f)|;
    ImagesAppend(s.arrived[|s.delivered|..], f);
    assert t.arrived[|t.delivered|..] == s.arrived[|s.delivered|..] + [f];
  }

  /** Fetching keeps the queue discipline in automatic mode, and in linear mode if and only if the
      frame does not end exactly on the delimiter; the frame handed over is the right one in all
      cases. */
  lemma FetchKeepsFifoIff(s: Rx)
    requires Fifo(s) && s.head != s.tail
    ensures Enabled(s, Fetch)
    ensures Step(s, Fetch).delivered == s.arrived[..|s.delivered| + 1]
    ensures Fifo(Step(s, Fetch)) <==> !Strands(s)
  {
    FetchIsOldest(s);
    var t := Step(s, Fetch);
    if !Strands(s) {
      assert t.head == Slot(s.w, s.head, 1 + Payload(s));
      assert Used(t) == Used(s) - (1 + Payload(s));
    }
  }

  /** After a frame that ends on the delimiter the head is outside the ring, so the poll reports
      a frame even when every frame has been delivered. */
  lemma StrandedHead(s: Rx)
    requires Fifo(s) && s.head != s.tail && Strands(s)
    ensures Step(s, Fetch).head == s.w
    ensures Step(s, Fetch).head != Step(s, Fetch).tail
  {
    FetchKeepsFifoIff(s);
  }

  /** The frame behind a status word, and the head after it, in numbers: the length is the lower half
      of the status word. */
  lemma FrameInNumbers(mem: seq<word>, w: nat, head: nat, k: nat)
    requires head < w <= |mem| && 1 + Words(Length(mem[head])) <= w && k == (mem[head] % 0x1_0000 + 3) / 4
    ensures k < w && FrameAt(mem, w, head) == Frame(mem[head], Read(mem, 0, w, Slot(w, head, 1), k))
    ensures NextHead(w, head, k) == if head + 1 + k <= w then head + 1 + k else head + 1 + k - w
    ensures Words(Length(mem[head])) == k
  {}

  /** A fetch in numbers: with a status word of `flags` in its upper and the length `n` in its lower
      half, a fetch delivers the (n + 3) / 4 words behind it, and moves the head past them. */
  lemma FetchInNumbers(s: Rx, flags: nat, n: nat)
    requires InRange(s) && Enabled(s, Fetch) && n < 0x1_0000 && s.mem[s.head] == flags * 0x1_0000 + n
    ensures var t, k := Step(s, Fetch), (n + 3) / 4;
      && k < s.w
      && t.delivered == s.delivered + [Frame(s.mem[s.head], Read(s.mem, 0, s.w, Slot(s.w, s.head, 1), k))]
      && t.head == (if s.head + 1 + k < s.w || (s.head + 1 + k == s.w && !s.auto) then s.head + 1 + k
                    else s.head + 1 + k - s.w)
  {
    DivideUnique(s.mem[s.head], flags, n, 0x1_0000);
  }

  ghost function Reset(auto: bool, mem: seq<word>, w: nat): Rx {
    Rx(auto, mem, w, 0, 0, [], [])
  }

  lemma {:induction false} RunKeepsFifo(s: Rx, es: seq<Event>, t: Rx)
    requires Fifo(s) && IsRun(s, es, t)
    ensures Fifo(t)
    decreases |es|
  {
    if es != [] {
      match es[0] {
        case Arrive(f) => ArriveKeepsFifo(s, f);
        case Fetch => FetchKeepsFifoIff(s);
      }
      RunKeepsFifo(Step(s, es[0]), es[1..], t);
    }
  }

  /** Every run from reset, in linear mode every one in which no fetched frame ends on the delimiter,
      delivers the frames that arrived, in order of arrival, and once the pointers meet it has
      delivered them all. */
  lemma DeliveredInArrivalOrder(auto: bool, mem: seq<word>, w: nat, es: seq<Event>, t: Rx)
    requires 0 < w <= |mem| && IsRun(Reset(auto, mem, w), es, t)
    ensures t.delivered <= t.arrived
    ensures t.head == t.tail <==> t.delivered == t.arrived
  {
    RunKeepsFifo(Reset(auto, mem, w), es, t);
    if t.head == t.tail {
      assert Images(t.arrived[|t.delivered|..]) == [];
    } else {
      FetchIsOldest(t);
    }
  }

  // ---------------------------------------------------------------- the failing case is reached

  lemma {:induction false} OneMore(s: Rx, es: seq<Event>, t: Rx, e: Event)
    requires IsRun(s, es, t) && InRange(t) && Enabled(t, e) && (e.Fetch? ==> !Strands(t))
    ensures IsRun(s, es + [e], Step(t, e))
    decreases |es|
  {
    if es == [] {
      assert [e][1..] == [];
    } else {
      OneMore(Step(s, es[0]), es[1..], t, e);
      assert (es + [e])[1..] == es[1..] + [e];
    }
  }

  /** What the poll finds after a frame has arrived in an empty ring. */
  lemma ArriveInEmpty(s: Rx, f: Frame) returns (t: Rx)
    requires Fifo(s) && s.head == s.tail && Enabled(s, Arrive(f))
    ensures t == Step(s, Arrive(f)) && Fifo(t) && t.head != t.tail
    ensures t.auto == s.auto && t.w == s.w && t.head == s.head && t.tail == Slot(s.w, s.head, |Image(f)|)
    ensures Payload(t) == |f.words|
  {
    t := Step(s, Arrive(f));
    ArriveKeepsFifo(s, f);
    assert s.arrived[|s.delivered|..] == [] by {
      assert Contents(s) == [];
    }
    assert t.arrived[|t.delivered|] == f;
    FetchIsOldest(t);
  }

  /** A frame goes through an empty ring, and the pointers move on. */
  lemma Passes(s: Rx, f: Frame) returns (t: Rx)
    requires Fifo(s) && s.head == s.tail && Enabled(s, Arrive(f)) && s.head + |Image(f)| < s.w
    ensures Fifo(t) && t.auto == s.auto && t.w == s.w && t.head == t.tail == s.head + |Image(f)|
    ensures forall r, es :: IsRun(r, es, s) ==> IsRun(r, es + [Arrive(f)] + [Fetch], t)
  {
    var u := ArriveInEmpty(s, f);
    FetchKeepsFifoIff(u);
    t := Step(u, Fetch);
    forall r, es | IsRun(r, es, s) ensures IsRun(r, es + [Arrive(f)] + [Fetch], t) {
      OneMore(r, es, s, Arrive(f));
      OneMore(r, es + [Arrive(f)], u, Fetch);
    }
  }

  /** With the ring of 4 KiB the stack asks for, three frames that each arrive and are fetched in turn
      suffice: two of 1500 bytes and one of 1084 end exactly on the delimiter. */
  lemma DelimiterReached(mem: seq<word>, a: Frame, b: Frame) returns (s: Rx)
    requires 1024 <= |mem| && WellFormed(a) && WellFormed(b)
    requires Length(a.status) == 1500 && Length(b.status) == 1084
    ensures IsRun(Reset(false, mem, 1024), [] + [Arrive(a)] + [Fetch] + [Arrive(a)] + [Fetch] + [Arrive(b)], s)
    ensures Fifo(s) && Enabled(s, Fetch) && Strands(s)
    ensures Step(s, Fetch).delivered == s.arrived && Step(s, Fetch).head != Step(s, Fetch).tail
  {
    var s0 := Reset(false, mem, 1024);
    assert Contents(s0) == [];
    var s1 := Passes(s0, a);
    var s2 := Passes(s1, a);
    s := ArriveInEmpty(s2, b);
    OneMore(s0, [] + [Arrive(a)] + [Fetch] + [Arrive(a)] + [Fetch], s2, Arrive(b));
    StrandedHead(s);
    FetchKeepsFifoIff(s);
  }
}
