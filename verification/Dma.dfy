/** DMA channel descriptors: how the driver packs them and what the controller makes of them.

    The control word has the layout of the ARM PrimeCell uDMA controller (PL230), and the engine
    below follows that controller: a descriptor names the last address of each side, a transfer with
    `n_minus_1` more to go happens that many increments before the end, and the descriptor in memory
    is brought up to date only when the controller arbitrates again. */
module Dma {
  import opened Machine
  import opened Bits

  // ---------------------------------------------------------------- the driver

  /** The address increments, in the order of their codes. */
  datatype Inc = IncByte | IncHalfword | IncWord | IncNo

  datatype Size = SizeByte | SizeHalfword | SizeWord

  /** The operating modes; the last one sets the burst bit as well. */
  datatype Mode = Stop | Basic | AutoRequest | PingPong | MemScatterPri | MemScatterAlt
                | PerScatterPri | PerScatterAlt | PerScatterAltBurst

  /** The parameters of a descriptor. `continuous` is the exponent of the number of transfers
      between arbitrations; the protection parameters are three bits each. */
  datatype CtrlInit = CtrlInit(srcBase: word, dstBase: word, srcInc: Inc, dstInc: Inc, size: Size,
                               mode: Mode, cycle: nat, continuous: nat, srcProt: nat, dstProt: nat)

  datatype Descriptor = Descriptor(srcEnd: word, dstEnd: word, control: word)

  function IncCode(inc: Inc): nat {
    match inc case IncByte => 0 case IncHalfword => 1 case IncWord => 2 case IncNo => 3
  }

  function SizeCode(size: Size): nat {
    match size case SizeByte => 0 case SizeHalfword => 1 case SizeWord => 2
  }

  function ModeCode(mode: Mode): nat {
    match mode
    case Stop => 0 case Basic => 1 case AutoRequest => 2 case PingPong => 3
    case MemScatterPri => 4 case MemScatterAlt => 5 case PerScatterPri => 6 case PerScatterAlt => 7
    case PerScatterAltBurst => 0xF
  }

  /** The parameter checks at the top of `DMA_CtrlDataInit`. */
  predicate Checked(i: CtrlInit) {
    1 <= i.cycle <= 1024 && i.continuous <= 10 && i.srcProt < 8 && i.dstProt < 8
  }

  /** `m << code`, for the codes that are shifts. */
  function Scaled(m: nat, inc: Inc): nat {
    match inc case IncByte => m case IncHalfword => 2 * m case IncWord => 4 * m case IncNo => 0
  }

  /** The end address of a side that has `m` increments to go from its base. */
  function End(base: word, m: nat, inc: Inc): word {
    if inc == IncNo then base else U32(base + Scaled(m, inc))
  }

  /** The or of the increments and the data size, which sets two fields. */
  function TopFields(i: CtrlInit): nat {
    Or(Or(Or(IncCode(i.dstInc) * 0x4000_0000, SizeCode(i.size) * 0x1000_0000),
          IncCode(i.srcInc) * 0x400_0000),
       SizeCode(i.size) * 0x100_0000)
  }

  function UpperFields(i: CtrlInit): nat {
    Or(Or(Or(TopFields(i), i.dstProt * 0x20_0000), i.srcProt * 0x4_0000), i.continuous * 0x4000)
  }

  /** The or of all the shifted parameters, written from the highest field down. */
  function OrOfFields(i: CtrlInit): nat
    requires Checked(i)
  {
    Or(Or(UpperFields(i), (i.cycle - 1) * 0x10), ModeCode(i.mode))
  }

  /** The increments and sizes side by side. */
  function Top(i: CtrlInit): (h: nat)
    ensures h < 0x100
  {
    IncCode(i.dstInc) * 0x40 + SizeCode(i.size) * 0x10 + IncCode(i.srcInc) * 4 + SizeCode(i.size)
  }

  /** All the fields above the transfer count side by side. */
  function Upper(i: CtrlInit): (h: nat)
    requires Checked(i)
    ensures h < 0x4_0000
  {
    Top(i) * 0x400 + i.dstProt * 0x80 + i.srcProt * 0x10 + i.continuous
  }

  /** The control word: the fields of the PL230 layout side by side. */
  function Control(i: CtrlInit): word
    requires Checked(i)
  {
    Upper(i) * 0x4000 + (i.cycle - 1) * 0x10 + ModeCode(i.mode)
  }

  lemma TopStacked(d: nat, z: nat, s: nat)
    requires d < 4 && z < 4 && s < 4
    ensures Or(Or(Or(d * 0x4000_0000, z * 0x1000_0000), s * 0x400_0000), z * 0x100_0000)
         == (d * 0x40 + z * 0x10 + s * 4 + z) * 0x100_0000
  {
    Powers();
    Join(d, z * 0x1000_0000, 30, 0x4000_0000);
    Join(4 * d + z, s * 0x400_0000, 28, 0x1000_0000);
    Join(16 * d + 4 * z + s, z * 0x100_0000, 26, 0x400_0000);
  }

  lemma Stacked(t: nat, a: nat, b: nat, c: nat)
    requires a < 8 && b < 8 && c < 16
    ensures Or(Or(Or(t * 0x100_0000, a * 0x20_0000), b * 0x4_0000), c * 0x4000)
         == (t * 0x400 + a * 0x80 + b * 0x10 + c) * 0x4000
  {
    Powers();
    Join(t, a * 0x20_0000, 24, 0x100_0000);
    Join(8 * t + a, b * 0x4_0000, 21, 0x20_0000);
    Join(64 * t + 8 * a + b, c * 0x4000, 18, 0x4_0000);
  }

  lemma LowStacked(h: nat, m: nat, c: nat)
    requires m < 1024 && c < 16
    ensures Or(Or(h * 0x4000, m * 0x10), c) == h * 0x4000 + m * 0x10 + c
  {
    Powers();
    Join(h, m * 0x10, 14, 0x4000);
    Join(1024 * h + m, c, 4, 0x10);
  }

  lemma TopIsPacked(i: CtrlInit)
    ensures TopFields(i) == Top(i) * 0x100_0000
  {
    TopStacked(IncCode(i.dstInc), SizeCode(i.size), IncCode(i.srcInc));
  }

  lemma UpperIsPacked(i: CtrlInit)
    requires Checked(i)
    ensures UpperFields(i) == Upper(i) * 0x4000
  {
    TopIsPacked(i);
    Stacked(Top(i), i.dstProt, i.srcProt, i.continuous);
  }

  /** The or puts every field in its place: no two of them overlap. */
  lemma OrIsControl(i: CtrlInit)
    requires Checked(i)
    ensures OrOfFields(i) == Control(i)
  {
    UpperIsPacked(i);
    LowStacked(Upper(i), i.cycle - 1, ModeCode(i.mode));
  }

  /** The descriptor of the parameters: end addresses and control word. */
  function CtrlData(i: CtrlInit): Descriptor
    requires Checked(i)
  {
    Descriptor(End(i.srcBase, i.cycle - 1, i.srcInc),
               if i.mode == MemScatterPri then U32(i.dstBase + 12) else End(i.dstBase, i.cycle - 1, i.dstInc),
               Control(i))
  }

  /** `DMA_GetCurrTransferCounter` on a control word: `((c & 0x3FF0) >> 4) + 1`. */
  function Counter(c: word): nat {
    c / 0x10 % 0x400 + 1
  }

  // ---------------------------------------------------------------- the engine

  function Remaining(c: word): (m: nat)
    ensures m <= 0x3FF
  {
    c / 0x10 % 0x400
  }

  function IncOf(code: nat): Inc {
    if code == 0 then IncByte else if code == 1 then IncHalfword else if code == 2 then IncWord else IncNo
  }

  /** What the engine reads out of a descriptor: the two ends, the transfers to go after the next
      one, the increments, and whether this is the primary cycle of a scatter-gather, of memory or
      of a peripheral. */
  datatype Plan = Plan(srcEnd: word, dstEnd: word, m: nat, srcInc: Inc, dstInc: Inc, gathers: bool)

  function Decode(d: Descriptor): Plan {
    var c := d.control;
    Plan(d.srcEnd, d.dstEnd, Remaining(c), IncOf(c / 0x400_0000 % 4), IncOf(c / 0x4000_0000 % 4),
         c % 8 == 4 || c % 8 == 6)
  }

  datatype Access = Access(src: word, dst: word)

  /** The addresses of a transfer with `m` more to go. The primary cycle of a scatter-gather fills
      the four words of the alternate descriptor over and over. */
  function AccessAt(p: Plan, m: nat): Access {
    Access(U32(p.srcEnd - Scaled(m, p.srcInc)),
           U32(p.dstEnd - Scaled(if p.gathers then m % 4 else m, p.dstInc)))
  }

  function Transfer(d: Descriptor): Access {
    AccessAt(Decode(d), Decode(d).m)
  }

  /** The engine's own view of the descriptor after a transfer: one fewer to go, or the cycle
      stopped. */
  function Next(d: Descriptor): Descriptor {
    d.(control := if Remaining(d.control) == 0 then d.control - d.control % 8 else d.control - 0x10)
  }

  function After(d: Descriptor, j: nat): Descriptor {
    if j == 0 then d else Next(After(d, j - 1))
  }

  /** Every transfer of a cycle, in order; a stopped descriptor moves nothing. */
  function Cycle(d: Descriptor): (r: seq<Access>)
    ensures |r| == if d.control % 8 == 0 then 0 else Remaining(d.control) + 1
  {
    if d.control % 8 == 0 then [] else seq(Remaining(d.control) + 1, k requires 0 <= k => Transfer(After(d, k)))
  }

  /** How many transfers the controller makes before it arbitrates again. */
  function Burst(c: word): (p: nat)
    ensures p > 0
  {
    var power := c / 0x4000 % 0x10;
    Pow2(if power < 10 then power else 10)
  }

  /** How many of j transfers came after the last arbitration, when there is one every p. */
  function Since(j: nat, p: nat): (r: nat)
    requires p > 0
    ensures r < p && r <= j
    decreases j
  {
    if j < p then j else Since(j - p, p)
  }

  lemma {:induction false} SinceIsRemainder(j: nat, p: nat)
    requires p > 0
    ensures Since(j, p) == j % p
    decreases j
  {
    if j < p {
      DivideUnique(j, 0, j, p);
    } else {
      SinceIsRemainder(j - p, p);
      DivideUnique(j, (j - p) / p + 1, (j - p) % p, p);
    }
  }

  /** The descriptor as memory shows it after j transfers: as it was at the last arbitration, or
      finished. */
  function Shown(d: Descriptor, j: nat): Descriptor {
    if j <= Remaining(d.control) then After(d, j - Since(j, Burst(d.control))) else After(d, j)
  }

  // ---------------------------------------------------------------- what the packing means

  /** A word taken apart at the transfer count. */
  lemma Digits(h: nat, m: nat, c: nat, x: nat)
    requires m < 0x400 && c < 0x10 && x == h * 0x4000 + m * 0x10 + c
    ensures x / 0x10 % 0x400 == m && x % 0x10 == c && x % 8 == c % 8 && x / 0x4000 == h
  {
    DivideUnique(x, h * 0x400 + m, c, 0x10);
    DivideUnique(h * 0x400 + m, h, m, 0x400);
    DivideUnique(x, h * 0x800 + m * 2 + c / 8, c % 8, 8);
    DivideUnique(x, h, m * 0x10 + c, 0x4000);
  }

  lemma Assembled(x: nat)
    ensures x == x / 0x4000 * 0x4000 + x / 0x10 % 0x400 * 0x10 + x % 0x10
  {}

  /** Positions above the transfer count, in terms of the part above it. */
  lemma Above(x: nat, h: nat)
    requires h == x / 0x4000
    ensures x / 0x400_0000 == h / 0x1000 && x / 0x4000_0000 == h / 0x1_0000
    ensures x / 0x100_0000 == h / 0x400 && x / 0x1000_0000 == h / 0x4000
    ensures x / 0x20_0000 == h / 0x80 && x / 0x4_0000 == h / 0x10
  {}

  lemma UpperDigits(t: nat, a: nat, b: nat, c: nat, h: nat)
    requires a < 8 && b < 8 && c < 16 && h == t * 0x400 + a * 0x80 + b * 0x10 + c
    ensures h % 0x10 == c && h / 0x10 % 8 == b && h / 0x80 % 8 == a && h / 0x400 == t
  {
    assert h / 0x10 == t * 0x40 + a * 8 + b;
    assert h / 0x80 == t * 8 + a;
  }

  lemma TopDigits(d: nat, z: nat, s: nat, h: nat)
    requires d < 4 && z < 4 && s < 4 && h / 0x400 == d * 0x40 + z * 0x10 + s * 4 + z
    ensures h / 0x1000 % 4 == s && h / 0x1_0000 % 4 == d && h / 0x400 % 4 == h / 0x4000 % 4 == z
  {
    assert h / 0x1000 == d * 0x10 + z * 4 + s && h / 0x4000 == d * 4 + z && h / 0x1_0000 == d;
  }

  /** Every field of the control word decodes to the parameter it was packed from. */
  lemma FieldsDecode(i: CtrlInit, x: nat)
    requires Checked(i) && x == Control(i)
    ensures x / 0x10 % 0x400 == i.cycle - 1 && x % 0x10 == ModeCode(i.mode) && x % 8 == ModeCode(i.mode) % 8
    ensures x / 0x400_0000 % 4 == IncCode(i.srcInc) && x / 0x4000_0000 % 4 == IncCode(i.dstInc)
    ensures x / 0x100_0000 % 4 == x / 0x1000_0000 % 4 == SizeCode(i.size)
    ensures x / 0x20_0000 % 8 == i.dstProt && x / 0x4_0000 % 8 == i.srcProt
    ensures x / 0x4000 % 0x10 == i.continuous
  {
    var h := Upper(i);
    Digits(h, i.cycle - 1, ModeCode(i.mode), x);
    Above(x, h);
    UpperDigits(Top(i), i.dstProt, i.srcProt, i.continuous, h);
    TopDigits(IncCode(i.dstInc), SizeCode(i.size), IncCode(i.srcInc), h);
  }

  predicate Gathers(mode: Mode) {
    mode == MemScatterPri || mode == PerScatterPri
  }

  /** So the plan the engine makes of a packed descriptor has the driver's parameters. */
  lemma DecodeCtrlData(i: CtrlInit)
    requires Checked(i)
    ensures Decode(CtrlData(i)) == Plan(CtrlData(i).srcEnd, CtrlData(i).dstEnd, i.cycle - 1,
                                        i.srcInc, i.dstInc, Gathers(i.mode))
  {
    FieldsDecode(i, Control(i));
  }

  /** The fields in numbers, as the header of the driver gives them. */
  lemma PackedNumbers(i: CtrlInit, x: nat)
    requires Checked(i) && x == CtrlData(i).control
    ensures x % 0x10 ==
      match i.mode
      case Stop => 0x0 case Basic => 0x1 case AutoRequest => 0x2 case PingPong => 0x3
      case MemScatterPri => 0x4 case MemScatterAlt => 0x5 case PerScatterPri => 0x6 case PerScatterAlt => 0x7
      case PerScatterAltBurst => 0xF
    ensures x / 0x1000_0000 % 4 == x / 0x100_0000 % 4 ==
      match i.size case SizeByte => 0 case SizeHalfword => 1 case SizeWord => 2
    ensures x / 0x400_0000 % 4 ==
      match i.srcInc case IncByte => 0 case IncHalfword => 1 case IncWord => 2 case IncNo => 3
    ensures x / 0x4000_0000 % 4 ==
      match i.dstInc case IncByte => 0 case IncHalfword => 1 case IncWord => 2 case IncNo => 3
  {
    FieldsDecode(i, x);
  }

  // ---------------------------------------------------------------- a cycle under way

  lemma MinusSixteen(c: nat)
    requires c / 0x10 % 0x400 != 0
    ensures c >= 0x10
    ensures (c - 0x10) / 0x10 % 0x400 == c / 0x10 % 0x400 - 1 && (c - 0x10) % 8 == c % 8
    ensures (c - 0x10) / 0x4000 == c / 0x4000
  {
    Assembled(c);
    Digits(c / 0x4000, c / 0x10 % 0x400 - 1, c % 0x10, c - 0x10);
  }

  lemma StepCounts(d: Descriptor)
    requires Decode(d).m != 0
    ensures Decode(Next(d)) == Decode(d).(m := Decode(d).m - 1)
  {
    var c := d.control;
    MinusSixteen(c);
    Above(c, c / 0x4000);
    Above(c - 0x10, c / 0x4000);
  }

  /** After j transfers the count field is j lower and nothing else has changed. */
  lemma {:induction false} AfterCounts(d: Descriptor, j: nat)
    requires j <= Decode(d).m
    ensures Decode(After(d, j)) == Decode(d).(m := Decode(d).m - j)
  {
    if j > 0 {
      AfterCounts(d, j - 1);
      StepCounts(After(d, j - 1));
    }
  }

  lemma CycleAt(d: Descriptor, k: nat)
    requires k < |Cycle(d)|
    ensures Cycle(d)[k] == Transfer(After(d, k))
  {}

  lemma TransferOf(q: Descriptor, p: Plan, k: nat)
    requires k <= p.m && Decode(q) == p.(m := p.m - k)
    ensures Transfer(q) == AccessAt(p, p.m - k)
  {}

  /** The addresses of transfer k, counted back from the end of the cycle. */
  lemma TransferAfter(d: Descriptor, p: Plan, k: nat)
    requires p == Decode(d) && k <= p.m && d.control % 8 != 0
    ensures |Cycle(d)| == p.m + 1 && Cycle(d)[k] == AccessAt(p, p.m - k)
  {
    AfterCounts(d, k);
    CycleAt(d, k);
    TransferOf(After(d, k), p, k);
  }

  /** Counting back from the end and forward from the base agree. */
  lemma BackAndForth(base: word, m: nat, k: nat, inc: Inc)
    requires k <= m <= 0x3FF
    ensures U32(End(base, m, inc) - Scaled(m - k, inc)) == U32(base + Scaled(k, inc))
  {}

  /** A plan whose ends fit its increments is walked forward from its bases. */
  lemma WalkedForward(p: Plan, src: word, dst: word, k: nat)
    requires k <= p.m <= 0x3FF && !p.gathers
    requires p.srcEnd == End(src, p.m, p.srcInc) && p.dstEnd == End(dst, p.m, p.dstInc)
    ensures AccessAt(p, p.m - k) == Access(U32(src + Scaled(k, p.srcInc)), U32(dst + Scaled(k, p.dstInc)))
  {
    BackAndForth(src, p.m, k, p.srcInc);
    BackAndForth(dst, p.m, k, p.dstInc);
  }

  lemma PackedMode(i: CtrlInit)
    requires Checked(i)
    ensures CtrlData(i).control % 8 == ModeCode(i.mode) % 8
    ensures i.mode != Stop ==> CtrlData(i).control % 8 != 0
  {
    FieldsDecode(i, Control(i));
  }

  /** Running the engine on a descriptor the driver packed touches, at transfer k, exactly the
      base addresses plus k increments; this is for every cycle size and increment, and for every
      base, counting addresses modulo 2^32. The two primary modes are below. */
  lemma CycleTouches(i: CtrlInit, k: nat)
    requires Checked(i) && !Gathers(i.mode) && i.mode != Stop && k < i.cycle
    ensures var c := Cycle(CtrlData(i));
      && |c| == i.cycle
      && c[k] == Access(U32(i.srcBase + Scaled(k, i.srcInc)), U32(i.dstBase + Scaled(k, i.dstInc)))
  {
    DecodeCtrlData(i);
    PackedMode(i);
    PlanTouches(CtrlData(i), i.srcBase, i.dstBase, k);
  }

  lemma PlanTouches(d: Descriptor, src: word, dst: word, k: nat)
    requires k <= Decode(d).m && !Decode(d).gathers && d.control % 8 != 0
    requires d.srcEnd == End(src, Decode(d).m, Decode(d).srcInc) && d.dstEnd == End(dst, Decode(d).m, Decode(d).dstInc)
    ensures |Cycle(d)| == Decode(d).m + 1
    ensures Cycle(d)[k] == Access(U32(src + Scaled(k, Decode(d).srcInc)), U32(dst + Scaled(k, Decode(d).dstInc)))
  {
    TransferAfter(d, Decode(d), k);
    WalkedForward(Decode(d), src, dst, k);
  }

  /** The address of unit k of an area of bytes, half-words or words, or of a fixed location. */
  function Unit(base: word, inc: Inc, k: nat): word {
    match inc
    case IncByte => U32(base + k)
    case IncHalfword => U32(base + k + k)
    case IncWord => U32(base + k + k + k + k)
    case IncNo => base
  }

  /** The transfers a caller asks for. */
  function Moves(i: CtrlInit): (r: seq<Access>)
    ensures |r| == i.cycle
  {
    seq(i.cycle, k requires 0 <= k => Access(Unit(i.srcBase, i.srcInc, k), Unit(i.dstBase, i.dstInc, k)))
  }

  /** The modes whose cycle is an ordinary one. */
  predicate Ordinary(mode: Mode) {
    mode != Stop && !Gathers(mode)
  }

  /** So the cycle of a packed descriptor is what the caller asked for. */
  lemma CycleIsMoves(i: CtrlInit)
    requires Checked(i) && Ordinary(i.mode)
    ensures Cycle(CtrlData(i)) == Moves(i)
  {
    forall k | 0 <= k < i.cycle
      ensures |Cycle(CtrlData(i))| == i.cycle && Cycle(CtrlData(i))[k] == Moves(i)[k]
    {
      CycleTouches(i, k);
    }
    CycleTouches(i, 0);
  }

  // ---------------------------------------------------------------- the transfer counter

  /** Stopping a cycle clears the mode and keeps the count. */
  lemma StopKeepsCount(d: Descriptor)
    requires Remaining(d.control) == 0
    ensures Remaining(Next(d).control) == 0 && Next(d).control % 8 == 0
  {
    var c := d.control;
    Assembled(c);
    Digits(c / 0x4000, 0, c % 0x10 - c % 8, c - c % 8);
  }

  lemma Finished(d: Descriptor, n: nat)
    requires n == Decode(d).m + 1
    ensures Remaining(After(d, n).control) == 0 && After(d, n).control % 8 == 0
  {
    AfterCounts(d, n - 1);
    StopKeepsCount(After(d, n - 1));
  }

  lemma {:induction false} ModeSurvives(d: Descriptor, j: nat)
    requires j <= Decode(d).m
    ensures After(d, j).control % 8 == d.control % 8
  {
    if j > 0 {
      ModeSurvives(d, j - 1);
      AfterCounts(d, j - 1);
      MinusSixteen(After(d, j - 1).control);
    }
  }

  /** While transfers remain memory shows the mode that was set, and when none does it is clear. */
  lemma ShownMode(d: Descriptor, n: nat, j: nat)
    requires n == Remaining(d.control) + 1 && j <= n
    ensures Shown(d, j).control % 8 == if j < n then d.control % 8 else 0
  {
    if j < n {
      ModeSurvives(d, j - Since(j, Burst(d.control)));
    } else {
      Finished(d, n);
    }
  }

  /** And it counts the transfers that were left at the last arbitration, or 1. */
  lemma ShownCount(d: Descriptor, n: nat, j: nat)
    requires n == Remaining(d.control) + 1 && j <= n
    ensures Counter(Shown(d, j).control) == if j < n then n - j + Since(j, Burst(d.control)) else 1
  {
    if j < n {
      AfterCounts(d, j - Since(j, Burst(d.control)));
    } else {
      Finished(d, n);
    }
  }

  /** The documentation promises the number of remaining transfers. The counter is that number if
      and only if the mode bits beside it are set and the controller has just arbitrated. */
  lemma CounterTracksCycle(d: Descriptor, n: nat, j: nat)
    requires d.control % 8 != 0 && n == Remaining(d.control) + 1 && j <= n
    ensures Counter(Shown(d, j).control) == n - j
       <==> Shown(d, j).control % 8 != 0 && Since(j, Burst(d.control)) == 0
  {
    ShownMode(d, n, j);
    ShownCount(d, n, j);
  }

  /** So a caller who sees the mode bits set can rely on it, at every moment of the cycle, if and
      only if the controller arbitrates after every transfer or there is only one. */
  lemma CounterReliableIff(d: Descriptor, n: nat)
    requires d.control % 8 != 0 && n == Remaining(d.control) + 1
    ensures (forall j :: 0 <= j <= n && Shown(d, j).control % 8 != 0 ==> Counter(Shown(d, j).control) == n - j)
       <==> Burst(d.control) == 1 || n == 1
  {
    if Burst(d.control) == 1 || n == 1 {
      forall j | 0 <= j <= n && Shown(d, j).control % 8 != 0 ensures Counter(Shown(d, j).control) == n - j {
        ShownMode(d, n, j);
        CounterTracksCycle(d, n, j);
      }
    } else {
      ShownMode(d, n, 1);
      CounterTracksCycle(d, n, 1);
    }
  }

  lemma LowModeBits(c: nat)
    ensures c % 4 == c % 8 % 4
  {
    var q, r := c / 8, c % 8;
    DivideUnique(c, 2 * q + r / 4, r % 4, 4);
  }

  /** The busy-wait on the two low mode bits of an auto-request cycle, as memory shows them, ends
      exactly when the last transfer is done. */
  lemma PollSeesCompletion(d: Descriptor, n: nat, j: nat)
    requires d.control % 8 == ModeCode(AutoRequest) && n == Remaining(d.control) + 1 && j <= n
    ensures Shown(d, j).control % 4 == 0 <==> j == n
  {
    LowModeBits(Shown(d, j).control);
    ShownMode(d, n, j);
  }

  // ---------------------------------------------------------------- the Ethernet frames

  /** `(n - 1) << 4` in unsigned arithmetic. */
  function CountField(n: nat): (c: word)
    requires n <= 1024
    ensures c == if n == 0 then 0xFFFF_FFF0 else (n - 1) * 0x10
  {
    var m := U32(n - 1);
    U32(m * 0x10)
  }

  /** The control word of a received frame of `n` words. */
  function FrameRxControl(n: nat): (c: word)
    requires n <= 1024
    ensures n == 0 ==> c == 0xFFFF_FFF2
    ensures n > 0 ==> c == 0x2B80A * 0x4000 + (n - 1) * 0x10 + 2
  {
    RxStacked(n);
    Or(Or(0xAE02_8000, CountField(n)), 2)
  }

  lemma OnesStacked()
    ensures Or(Or(0xAE02_8000, 0xFFFF_FFF0), 2) == 0xFFFF_FFF2
  {
    Powers();
    OrOnes(0xAE0_2800, 28);
    OrDoubled(0xAE0_2800, 0xFFF_FFFF);
    OrDoubled(0x15C0_5000, 0x1FFF_FFFE);
    OrDoubled(0x2B80_A000, 0x3FFF_FFFC);
    OrDoubled(0x5701_4000, 0x7FFF_FFF8);
    Join(0xFFF_FFFF, 2, 4, 0x10);
  }

  lemma RxStacked(n: nat)
    requires n <= 1024
    ensures Or(Or(0xAE02_8000, CountField(n)), 2)
         == if n == 0 then 0xFFFF_FFF2 else 0x2B80A * 0x4000 + (n - 1) * 0x10 + 2
  {
    if n == 0 {
      OnesStacked();
    } else {
      LowStacked(0x2B80A, n - 1, 2);
    }
  }

  /** The descriptor `ETH_DMAFrameRx` packs by hand: a fixed source, `n` words of destination. */
  function FrameRx(dst: word, n: nat, src: word): Descriptor
    requires n <= 1024
  {
    Descriptor(src, U32(dst + 4 * (n - 1)), FrameRxControl(n))
  }

  /** The descriptor `ETH_DMAFrameTx` packs by hand: `n` words of source, a fixed destination. */
  function FrameTx(dst: word, n: nat, src: word): Descriptor
    requires 1 <= n <= 1024
  {
    LowStacked(0x3A80A, n - 1, 2);
    Descriptor(U32(src + 4 * (n - 1)), dst, Or(Or(0xEA02_8000, (n - 1) * 0x10), 2))
  }

  function FrameRxInit(dst: word, n: nat, src: word): CtrlInit {
    CtrlInit(src, dst, IncNo, IncWord, SizeWord, AutoRequest, n, 10, 0, 0)
  }

  function FrameTxInit(dst: word, n: nat, src: word): CtrlInit {
    CtrlInit(src, dst, IncWord, IncNo, SizeWord, AutoRequest, n, 10, 0, 0)
  }

  /** Both are what `DMA_CtrlDataInit` builds from the same parameters. */
  lemma FramesAreCtrlData(dst: word, n: nat, src: word)
    requires 1 <= n <= 1024
    ensures FrameRx(dst, n, src) == CtrlData(FrameRxInit(dst, n, src))
    ensures FrameTx(dst, n, src) == CtrlData(FrameTxInit(dst, n, src))
  {
    LowStacked(0x2B80A, n - 1, 2);
    LowStacked(0x3A80A, n - 1, 2);
  }

  /** So a received frame is n reads of the port into consecutive words. */
  lemma FrameRxMoves(dst: word, n: nat, src: word, k: nat)
    requires 1 <= n <= 1024 && k < n
    ensures var c := Cycle(FrameRx(dst, n, src));
      |c| == n && c[k] == Access(src, U32(dst + 4 * k))
  {
    FramesAreCtrlData(dst, n, src);
    CycleTouches(FrameRxInit(dst, n, src), k);
  }

  /** And a sent one is n consecutive words written to the port, in order. */
  lemma FrameTxMoves(dst: word, n: nat, src: word, k: nat)
    requires 1 <= n <= 1024 && k < n
    ensures var c := Cycle(FrameTx(dst, n, src));
      |c| == n && c[k] == Access(U32(src + 4 * k), dst)
  {
    FramesAreCtrlData(dst, n, src);
    CycleTouches(FrameTxInit(dst, n, src), k);
  }

  lemma FrameMode(dst: word, n: nat, src: word)
    requires 1 <= n <= 1024
    ensures FrameRx(dst, n, src).control % 8 == ModeCode(AutoRequest)
    ensures FrameTx(dst, n, src).control % 8 == ModeCode(AutoRequest)
  {
    LowStacked(0x2B80A, n - 1, 2);
    LowStacked(0x3A80A, n - 1, 2);
    Digits(0x2B80A, n - 1, 2, FrameRx(dst, n, src).control);
    Digits(0x3A80A, n - 1, 2, FrameTx(dst, n, src).control);
  }

  /** The received frames of the firmware are the case in point: their descriptors ask for 1024
      transfers between arbitrations, so the counter stands at the length of the frame until the last
      word is moved. */
  lemma FrameCounterStands(dst: word, n: nat, src: word, j: nat)
    requires 1 <= n <= 1024 && j < n
    ensures Shown(FrameRx(dst, n, src), j) == FrameRx(dst, n, src)
    ensures Counter(Shown(FrameRx(dst, n, src), j).control) == n
    ensures Shown(FrameRx(dst, n, src), j).control % 8 != 0
  {
    var d := FrameRx(dst, n, src);
    LowStacked(0x2B80A, n - 1, 2);
    Digits(0x2B80A, n - 1, 2, d.control);
    assert Burst(d.control) == Pow2(10) == 1024;
  }

  /** The engine beside the busy-wait: after k transfers the driver still waits if and only if there
      is another, which is one word from the port. */
  lemma FrameRxRuns(dst: word, n: nat, src: word, k: nat)
    requires 1 <= n <= 1024 && k <= n
    ensures var d := FrameRx(dst, n, src);
      && (Shown(d, k).control % 4 != 0 <==> k < n)
      && (k < n ==> Transfer(After(d, k)) == Access(src, U32(dst + 4 * k)))
  {
    FrameMode(dst, n, src);
    FrameRxMoves(dst, n, src, 0);
    PollSeesCompletion(FrameRx(dst, n, src), n, k);
    if k < n {
      FrameRxMoves(dst, n, src, k);
      CycleAt(FrameRx(dst, n, src), k);
    }
  }

  lemma FrameTxRuns(dst: word, n: nat, src: word, k: nat)
    requires 1 <= n <= 1024 && k <= n
    ensures var d := FrameTx(dst, n, src);
      && (Shown(d, k).control % 4 != 0 <==> k < n)
      && (k < n ==> Transfer(After(d, k)) == Access(U32(src + 4 * k), dst))
  {
    FrameMode(dst, n, src);
    FrameTxMoves(dst, n, src, 0);
    PollSeesCompletion(FrameTx(dst, n, src), n, k);
    if k < n {
      FrameTxMoves(dst, n, src, k);
      CycleAt(FrameTx(dst, n, src), k);
    }
  }

  lemma OnesDigits(x: nat)
    requires x == 0xFFFF_FFF2
    ensures x / 0x10 % 0x400 == 0x3FF && x % 8 == 2 && x / 0x400_0000 % 4 == x / 0x4000_0000 % 4 == 3
  {
    Digits(0x3FFFF, 0x3FF, 2, x);
    Above(x, 0x3FFFF);
  }

  /** A frame that announces no data is not a cycle of no transfers: the count wraps, the increments
      become none, and 1024 words of the port go to the word below the buffer. */
  lemma EmptyFrameRx(dst: word, src: word, k: nat)
    requires k < 1024
    ensures var c := Cycle(FrameRx(dst, 0, src));
      |c| == 1024 && c[k] == Access(src, U32(dst - 4))
  {
    var d := FrameRx(dst, 0, src);
    OnesDigits(d.control);
    TransferAfter(d, Plan(src, U32(dst - 4), 1023, IncNo, IncNo, false), k);
  }

  // ---------------------------------------------------------------- scatter-gather

  /** The primary descriptor `DMA_SG_Init` builds for `t` tasks: four transfers a task. */
  function PrimaryInit(base: word, alt: word, t: nat, srcProt: nat, dstProt: nat): CtrlInit {
    CtrlInit(base, alt, IncWord, IncWord, SizeWord, MemScatterPri, 4 * t, 2, srcProt, dstProt)
  }

  /** Its control word in numbers: four transfers between arbitrations, the count of 4 t words, and the
      two protections where the controller looks for them. */
  lemma PrimaryNumbers(base: word, alt: word, t: nat, srcProt: nat, dstProt: nat, x: nat)
    requires 1 <= t <= 256 && srcProt < 8 && dstProt < 8
    requires x == CtrlData(PrimaryInit(base, alt, t, srcProt, dstProt)).control
    ensures x % 0x10 == 4 && x / 0x10 % 0x400 == 4 * t - 1 && x / 0x4000 % 0x10 == 2
    ensures x / 0x4_0000 % 8 == srcProt && x / 0x20_0000 % 8 == dstProt
    ensures x / 0x100_0000 % 4 == x / 0x1000_0000 % 4 == x / 0x400_0000 % 4 == x / 0x4000_0000 % 4 == 2
  {
    FieldsDecode(PrimaryInit(base, alt, t, srcProt, dstProt), x);
  }

  lemma GroupArithmetic(t: nat, k: nat)
    requires k < 4 * t
    ensures (4 * t - 1 - k) % 4 == 3 - k % 4
  {}

  /** The transfers of a gathering plan. */
  lemma GatheringAccess(p: Plan, base: word, alt: word, t: nat, k: nat)
    requires k < 4 * t <= 1024
    requires p == Plan(End(base, 4 * t - 1, IncWord), U32(alt + 12), 4 * t - 1, IncWord, IncWord, true)
    ensures AccessAt(p, p.m - k) == Access(U32(base + 4 * k), U32(alt + 4 * (k % 4)))
  {
    GroupArithmetic(t, k);
    BackAndForth(base, 4 * t - 1, k, IncWord);
  }

  /** A peripheral scatter-gather set up the same way with `DMA_CtrlDataInit`. */
  function PeripheralInit(base: word, alt: word, t: nat, srcProt: nat, dstProt: nat): CtrlInit {
    PrimaryInit(base, alt, t, srcProt, dstProt).(mode := PerScatterPri)
  }

  /** The plan of that has its end where all the words would end, not where four would. */
  lemma PeripheralAccess(p: Plan, base: word, alt: word, t: nat, k: nat)
    requires k < 4 * t <= 1024
    requires p == Plan(End(base, 4 * t - 1, IncWord), End(alt, 4 * t - 1, IncWord), 4 * t - 1, IncWord, IncWord, true)
    ensures AccessAt(p, p.m - k) == Access(U32(base + 4 * k), U32(alt + 16 * (t - 1) + 4 * (k % 4)))
  {
    GroupArithmetic(t, k);
    BackAndForth(base, 4 * t - 1, k, IncWord);
  }

  /** The driver gives only the primary cycle of a memory scatter-gather the end of the alternate
      descriptor. So that of a peripheral one writes to the alternate descriptor if and only if it is
      for one task; for more it writes that many descriptors further on. */
  lemma PeripheralPrimaryMisses(base: word, alt: word, t: nat, srcProt: nat, dstProt: nat, k: nat)
    requires 1 <= t <= 256 && srcProt < 8 && dstProt < 8 && k < 4 * t
    ensures var c := Cycle(CtrlData(PeripheralInit(base, alt, t, srcProt, dstProt)));
      && |c| == 4 * t
      && c[k] == Access(U32(base + 4 * k), U32(alt + 16 * (t - 1) + 4 * (k % 4)))
      && (c[k].dst == U32(alt + 4 * (k % 4)) <==> t == 1)
  {
    var i := PeripheralInit(base, alt, t, srcProt, dstProt);
    DecodeCtrlData(i);
    PackedMode(i);
    TransferAfter(CtrlData(i), Decode(CtrlData(i)), k);
    PeripheralAccess(Decode(CtrlData(i)), base, alt, t, k);
    Apart(alt, 4 * (k % 4), 16 * (t - 1));
  }

  lemma Apart(a: word, x: nat, y: nat)
    requires x + y < TWO32
    ensures U32(a + y + x) == U32(a + x) <==> y == 0
  {}

  /** Transfer k of the primary cycle reads word k of an array of records and writes word k mod 4 of
      the alternate descriptor, so each group of four moves one record. */
  lemma PrimaryTouches(base: word, alt: word, t: nat, srcProt: nat, dstProt: nat, k: nat)
    requires 1 <= t <= 256 && srcProt < 8 && dstProt < 8 && k < 4 * t
    ensures var c := Cycle(CtrlData(PrimaryInit(base, alt, t, srcProt, dstProt)));
      |c| == 4 * t && c[k] == Access(U32(base + 4 * k), U32(alt + 4 * (k % 4)))
  {
    var i := PrimaryInit(base, alt, t, srcProt, dstProt);
    DecodeCtrlData(i);
    PackedMode(i);
    TransferAfter(CtrlData(i), Decode(CtrlData(i)), k);
    GatheringAccess(Decode(CtrlData(i)), base, alt, t, k);
  }

  /** The word at address `a` of a task array that starts at `base`. */
  function TaskWord(tasks: seq<Descriptor>, base: word, a: word): word {
    var off := U32(a - base);
    if off / 16 < |tasks| then
      var d := tasks[off / 16];
      if off % 16 == 0 then d.srcEnd else if off % 16 == 4 then d.dstEnd else if off % 16 == 8 then d.control else 0
    else 0
  }

  /** One transfer into the alternate descriptor at `alt`; the fourth word of a record is unused. */
  function Load(slot: Descriptor, tasks: seq<Descriptor>, base: word, alt: word, a: Access): Descriptor {
    var off, x := U32(a.dst - alt), TaskWord(tasks, base, a.src);
    if off == 0 then slot.(srcEnd := x)
    else if off == 4 then slot.(dstEnd := x)
    else if off == 8 then slot.(control := x)
    else slot
  }

  lemma LoadField(slot: Descriptor, tasks: seq<Descriptor>, base: word, alt: word, g: nat, j: nat)
    requires g < |tasks| <= 256 && j < 4
    ensures Load(slot, tasks, base, alt, Access(U32(base + 4 * (4 * g + j)), U32(alt + 4 * j)))
         == if j == 0 then slot.(srcEnd := tasks[g].srcEnd)
            else if j == 1 then slot.(dstEnd := tasks[g].dstEnd)
            else if j == 2 then slot.(control := tasks[g].control) else slot
  {
    assert U32(U32(base + 4 * (4 * g + j)) - base) == 16 * g + 4 * j;
    assert U32(U32(alt + 4 * j) - alt) == 4 * j;
  }

  /** The alternate descriptor after the four transfers of group g, whatever it held before. */
  function LoadGroup(slot: Descriptor, tasks: seq<Descriptor>, base: word, alt: word,
                     c: seq<Access>, g: nat): Descriptor
    requires 4 * g + 3 < |c|
  {
    Load(Load(Load(Load(slot, tasks, base, alt, c[4 * g]), tasks, base, alt, c[4 * g + 1]),
              tasks, base, alt, c[4 * g + 2]), tasks, base, alt, c[4 * g + 3])
  }

  ghost predicate GroupsOf(c: seq<Access>, base: word, alt: word, t: nat) {
    |c| == 4 * t && forall k :: 0 <= k < 4 * t ==> c[k] == Access(U32(base + 4 * k), U32(alt + 4 * (k % 4)))
  }

  lemma GroupLoadsTask(slot: Descriptor, tasks: seq<Descriptor>, base: word, alt: word, c: seq<Access>, g: nat)
    requires g < |tasks| <= 256 && GroupsOf(c, base, alt, |tasks|)
    ensures LoadGroup(slot, tasks, base, alt, c, g) == tasks[g]
  {
    forall j | 0 <= j < 4
      ensures c[4 * g + j] == Access(U32(base + 4 * (4 * g + j)), U32(alt + 4 * j))
    {
      assert (4 * g + j) % 4 == j;
    }
    var s0 := slot.(srcEnd := tasks[g].srcEnd);
    var s1 := s0.(dstEnd := tasks[g].dstEnd);
    LoadField(slot, tasks, base, alt, g, 0);
    LoadField(s0, tasks, base, alt, g, 1);
    LoadField(s1, tasks, base, alt, g, 2);
    LoadField(tasks[g], tasks, base, alt, g, 3);
  }

  /** Whether the controller goes back to the primary descriptor after the cycle of a record: only the
      alternate mode of a memory scatter-gather sends it there. */
  predicate Chains(d: Descriptor) {
    d.control % 8 == 5
  }

  /** A whole memory scatter-gather from group g on: load the alternate descriptor, run its cycle,
      and go on to the next group if it says so. */
  function ScatterGather(slot: Descriptor, tasks: seq<Descriptor>, base: word, alt: word,
                         c: seq<Access>, g: nat): seq<Access>
    requires |c| == 4 * |tasks| && g <= |tasks|
    decreases |tasks| - g
  {
    if g == |tasks| then []
    else
      var d := LoadGroup(slot, tasks, base, alt, c, g);
      Cycle(d) + if Chains(d) then ScatterGather(After(d, |Cycle(d)|), tasks, base, alt, c, g + 1) else []
  }

  /** The transfers of all records one after the other. */
  function AllCycles(tasks: seq<Descriptor>): seq<Access> {
    if tasks == [] then [] else Cycle(tasks[0]) + AllCycles(tasks[1..])
  }

  /** The records up to the first one that does not chain. */
  function Reached(tasks: seq<Descriptor>): (r: seq<Descriptor>)
    ensures r <= tasks
  {
    if tasks == [] then []
    else [tasks[0]] + if Chains(tasks[0]) then Reached(tasks[1..]) else []
  }

  lemma AllCyclesFirst(d: Descriptor, rest: seq<Descriptor>)
    ensures AllCycles([d] + rest) == Cycle(d) + AllCycles(rest)
  {
    assert ([d] + rest)[1..] == rest;
  }

  lemma {:induction false} GatheredInOrder(slot: Descriptor, tasks: seq<Descriptor>, base: word, alt: word,
                                           c: seq<Access>, g: nat)
    requires |tasks| <= 256 && GroupsOf(c, base, alt, |tasks|) && g <= |tasks|
    ensures ScatterGather(slot, tasks, base, alt, c, g) == AllCycles(Reached(tasks[g..]))
    decreases |tasks| - g
  {
    if g < |tasks| {
      var d := tasks[g];
      GroupLoadsTask(slot, tasks, base, alt, c, g);
      assert tasks[g..][0] == d && tasks[g..][1..] == tasks[g + 1..];
      AllCyclesFirst(d, if Chains(d) then Reached(tasks[g + 1..]) else []);
      if Chains(d) {
        GatheredInOrder(After(d, |Cycle(d)|), tasks, base, alt, c, g + 1);
      }
    }
  }

  /** The primary descriptor `DMA_SG_Init` builds makes the engine run the records of the array, each
      one whole and in order, up to the first one that does not chain. */
  lemma ScatterGatherRunsTasks(slot: Descriptor, tasks: seq<Descriptor>, base: word, alt: word,
                               srcProt: nat, dstProt: nat)
    requires 1 <= |tasks| <= 256 && srcProt < 8 && dstProt < 8
    ensures var c := Cycle(CtrlData(PrimaryInit(base, alt, |tasks|, srcProt, dstProt)));
      |c| == 4 * |tasks| && ScatterGather(slot, tasks, base, alt, c, 0) == AllCycles(Reached(tasks))
  {
    var c := Cycle(CtrlData(PrimaryInit(base, alt, |tasks|, srcProt, dstProt)));
    forall k | 0 <= k < 4 * |tasks|
      ensures |c| == 4 * |tasks| && c[k] == Access(U32(base + 4 * k), U32(alt + 4 * (k % 4)))
    {
      PrimaryTouches(base, alt, |tasks|, srcProt, dstProt, k);
    }
    assert |c| == 4 * |tasks| by { PrimaryTouches(base, alt, |tasks|, srcProt, dstProt, 0); }
    GatheredInOrder(slot, tasks, base, alt, c, 0);
    assert tasks[0..] == tasks;
  }

  /** That is all of them if and only if every record but the last has the alternate mode. */
  lemma {:induction false} AllReachedIff(tasks: seq<Descriptor>)
    ensures Reached(tasks) == tasks <==> forall k :: 0 <= k < |tasks| - 1 ==> Chains(tasks[k])
  {
    if tasks != [] {
      var rest := tasks[1..];
      AllReachedIff(rest);
      assert tasks == [tasks[0]] + rest;
      assert forall k :: 0 <= k < |rest| ==> rest[k] == tasks[k + 1];
      if Chains(tasks[0]) {
        assert Reached(tasks)[1..] == Reached(rest);
        assert forall k :: 0 < k < |tasks| - 1 ==> tasks[k] == rest[k - 1];
      }
    }
  }

  /** A record the driver packs chains if and only if it was packed with the alternate mode. */
  lemma ChainsIff(i: CtrlInit)
    requires Checked(i)
    ensures Chains(CtrlData(i)) <==> i.mode == MemScatterAlt
  {
    PackedMode(i);
  }

  /** The array of tasks that `DMA_SG_CtrlInit` fills, one call for each task. */
  function Packed(inits: seq<CtrlInit>): (tasks: seq<Descriptor>)
    requires forall k :: 0 <= k < |inits| ==> Checked(inits[k])
    ensures |tasks| == |inits|
  {
    seq(|inits|, k requires 0 <= k < |inits| => CtrlData(inits[k]))
  }

  function AllMoves(inits: seq<CtrlInit>): seq<Access> {
    if inits == [] then [] else Moves(inits[0]) + AllMoves(inits[1..])
  }

  lemma {:induction false} AllCyclesAreMoves(inits: seq<CtrlInit>)
    requires forall k :: 0 <= k < |inits| ==> Checked(inits[k]) && Ordinary(inits[k].mode)
    ensures AllCycles(Packed(inits)) == AllMoves(inits)
  {
    if inits != [] {
      assert Packed(inits)[1..] == Packed(inits[1..]);
      CycleIsMoves(inits[0]);
      AllCyclesAreMoves(inits[1..]);
    }
  }

  /** From parameters to transfers: a scatter-gather over tasks that are all packed with the alternate
      mode, but for the last, makes the transfers that each task asks for, in order, and no others. */
  lemma TasksRunWhole(inits: seq<CtrlInit>, slot: Descriptor, base: word, alt: word, srcProt: nat, dstProt: nat)
    requires 1 <= |inits| <= 256 && srcProt < 8 && dstProt < 8
    requires forall k :: 0 <= k < |inits| ==> Checked(inits[k]) && Ordinary(inits[k].mode)
    requires forall k :: 0 <= k < |inits| - 1 ==> inits[k].mode == MemScatterAlt
    ensures var c := Cycle(CtrlData(PrimaryInit(base, alt, |inits|, srcProt, dstProt)));
      |c| == 4 * |inits| && ScatterGather(slot, Packed(inits), base, alt, c, 0) == AllMoves(inits)
  {
    var tasks := Packed(inits);
    forall k | 0 <= k < |tasks| - 1 ensures Chains(tasks[k]) {
      ChainsIff(inits[k]);
    }
    AllReachedIff(tasks);
    ScatterGatherRunsTasks(slot, tasks, base, alt, srcProt, dstProt);
    AllCyclesAreMoves(inits);
  }

  /** Any other task mode before the last stops it there. */
  lemma AllPackedReachedIff(inits: seq<CtrlInit>)
    requires forall k :: 0 <= k < |inits| ==> Checked(inits[k])
    ensures Reached(Packed(inits)) == Packed(inits)
       <==> forall k :: 0 <= k < |inits| - 1 ==> inits[k].mode == MemScatterAlt
  {
    var tasks := Packed(inits);
    forall k | 0 <= k < |tasks| ensures Chains(tasks[k]) <==> inits[k].mode == MemScatterAlt {
      ChainsIff(inits[k]);
    }
    AllReachedIff(tasks);
  }
}
