/** The flash driver over its controller's registers. The command register is modelled as its bits,
    which the device header places at distinct positions, and the controller accepts a write only
    under rules that every operation of the driver is shown to meet. */
module FlashDriver {
  import opened WordBits
  import opened FlashStore

  const ACCESS_KEY: nat := 0x8AAA_5551

  datatype Cmd = Cmd(delay: nat, con: bool, xe: bool, ye: bool, se: bool, ifren: bool,
                     erase: bool, mas1: bool, prog: bool, nvstr: bool)

  /** `c & EEPROM_CMD_DELAY_Msk`. */
  function Latency(c: Cmd): Cmd {
    Cmd(c.delay, false, false, false, false, false, false, false, false, false)
  }

  /** The rules of a command sequence: control lines move only under register control, the latency
      stays, the bank changes only as the array is or goes idle and never under high voltage, an
      erase and a program exclude each other and a sense; the high voltage comes on only with a
      program or erase selected and goes off only after it has been deselected; a program pulse needs
      the high voltage. */
  predicate Legal(p: Cmd, n: Cmd) {
    && n.delay == p.delay
    && (!n.con ==> n == Latency(n))
    && (p.ifren != n.ifren ==> !n.xe && !p.nvstr)
    && !(n.prog && n.erase)
    && (n.se ==> !n.prog && !n.erase && !n.nvstr)
    && (n.prog || n.erase || n.ye || n.se || n.nvstr ==> n.xe)
    && (n.mas1 ==> n.xe)
    && (!p.nvstr && n.nvstr ==> p.xe && (p.prog || p.erase) && n.prog == p.prog && n.erase == p.erase)
    && (p.nvstr && !n.nvstr ==> !p.prog && !p.erase && !p.ye)
    && (n.ye && !p.ye && n.prog ==> p.prog && p.nvstr && n.nvstr)
    && (p.nvstr && ((p.prog && !n.prog) || (p.erase && !n.erase)) ==> !p.ye && n.nvstr)
  }

  /** The rising edge of YE with a program under way: the word at the address loses bits. */
  predicate Strobes(p: Cmd, n: Cmd) {
    n.ye && !p.ye && n.con && n.xe && n.prog && n.nvstr
  }

  /** The rising edge of NVSTR with an erase selected: the words of one lane are erased. */
  predicate Erases(p: Cmd, n: Cmd) {
    n.nvstr && !p.nvstr && n.con && n.xe && n.erase
  }

  /** The words of a page, or of every page, whose index is congruent to `lane` modulo 4. */
  function LaneErased(mem: seq<Word>, word: nat, mass: bool): seq<Word> {
    seq(|mem|, w requires 0 <= w < |mem| =>
      if (mass || w / PAGE_WORDS == word / PAGE_WORDS) && w % 4 == word % 4 then ALL else mem[w])
  }

  /** What a command write does to a bank that is selected by it. */
  function Reaction(p: Cmd, n: Cmd, word: nat, di: Word, mem: seq<Word>): seq<Word> {
    if Strobes(p, n) && word < |mem| then Programmed(mem, word, di)
    else if Erases(p, n) then LaneErased(mem, word, n.mas1)
    else mem
  }

  /** The first `count` rounds done: each erases its lane of the page its own address lies in, or of
      every page. */
  ghost predicate LanesErased(was: seq<Word>, now: seq<Word>, word: nat, count: nat, mass: bool) {
    && |now| == |was|
    && forall w :: 0 <= w < |was| ==>
         now[w] == if (mass || w / PAGE_WORDS == (word + Round(word, w)) / PAGE_WORDS) && Round(word, w) < count
                   then ALL else was[w]
  }

  /** Another lane erased. */
  lemma OneMoreLane(was: seq<Word>, now: seq<Word>, word: nat, count: nat, mass: bool)
    requires LanesErased(was, now, word, count, mass) && count < 4
    ensures LanesErased(was, LaneErased(now, word + count, mass), word, count + 1, mass)
  {
    var now' := LaneErased(now, word + count, mass);
    forall w | 0 <= w < |was|
      ensures now'[w] == if (mass || w / PAGE_WORDS == (word + Round(word, w)) / PAGE_WORDS)
                            && Round(word, w) < count + 1
                         then ALL else was[w]
    {
      LaneResidue(w, word, count);
    }
  }

  lemma LaneResidue(w: nat, word: nat, count: nat)
    requires count < 4
    ensures w % 4 == (word + count) % 4 <==> Round(word, w) == count
  {}

  /** Four rounds are a page erase, or the erase of the bank: the four residues cover every word. */
  lemma FourLanes(was: seq<Word>, now: seq<Word>, word: nat, mass: bool)
    requires LanesErased(was, now, word, 4, mass)
    ensures now == if mass then ErasedAll(was) else ErasedFrom(was, word)
  {}

  lemma NextWord(a: nat, k: nat)
    ensures (a + 4 * k) / 4 == a / 4 + k
  {}

  /** A call of the driver on one of the banks. */
  datatype Call = Call(op: Op, inInfo: bool)

  /** Whether a call is meant to change a bank: the erase of the information bank takes the main bank
      with it. */
  predicate Concerns(c: Call, inInfo: bool) {
    c.inInfo == inInfo || (c.op.EraseAll? && c.inInfo)
  }

  /** The operations a bank sees. */
  function SeenBy(calls: seq<Call>, inInfo: bool): seq<Op> {
    if calls == [] then []
    else (if Concerns(calls[0], inInfo) then [calls[0].op] else []) + SeenBy(calls[1..], inInfo)
  }

  /** What a call is meant to do to the bytes of a bank. */
  function Effect(b: seq<Word>, c: Call, inInfo: bool): (r: seq<Word>)
    ensures |r| == |b|
  {
    if Concerns(c, inInfo) then Store(b, c.op) else b
  }

  lemma FirstCall(b: seq<Word>, calls: seq<Call>, inInfo: bool)
    requires calls != []
    ensures StoreAll(b, SeenBy(calls, inInfo))
         == StoreAll(Effect(b, calls[0], inInfo), SeenBy(calls[1..], inInfo))
  {
    var op, rest := calls[0].op, SeenBy(calls[1..], inInfo);
    if Concerns(calls[0], inInfo) {
      assert ([op] + rest)[1..] == rest;
    } else {
      assert [] + rest == rest;
    }
  }

  class Eeprom {
    var key: nat
    var cmd: Cmd
    var adr: nat
    var di: Word
    var main: seq<Word>
    var info: seq<Word>

    constructor (main: seq<Word>, info: seq<Word>)
      ensures this.main == main && this.info == info && Idle()
    {
      this.main, this.info := main, info;
      key, adr, di := 0, 0, {};
      cmd := Cmd(0, false, false, false, false, false, false, false, false, false);
    }

    /** Between operations the registers are locked and the command holds only the latency. */
    ghost predicate Idle()
      reads this
    {
      key == 0 && cmd == Latency(cmd)
    }

    function Bank(inInfo: bool): seq<Word>
      reads this
    {
      if inInfo then info else main
    }

    /** The controller's side of a write to CMD. */
    method WriteCmd(c: Cmd)
      requires key == 0x8AAA_5551 && Legal(cmd, c)
      modifies this`cmd, this`main, this`info
      ensures cmd == c
      ensures main == if !c.ifren || c.mas1 then Reaction(old(cmd), c, adr / 4, di, old(main)) else old(main)
      ensures info == if c.ifren then Reaction(old(cmd), c, adr / 4, di, old(info)) else old(info)
    {
      if !c.ifren || c.mas1 {
        main := Reaction(cmd, c, adr / 4, di, main);
      }
      if c.ifren {
        info := Reaction(cmd, c, adr / 4, di, info);
      }
      cmd := c;
    }

    /** A write to ADR; the address must not move while the array is selected. */
    method WriteAdr(a: nat)
      requires key == 0x8AAA_5551 && !cmd.xe
      modifies this`adr
      ensures adr == a
    {
      adr := a;
    }

    /** The controller's side of a read of DO. */
    function DataOut(): Word
      requires cmd.con && cmd.xe && cmd.ye && cmd.se && adr / 4 < |Bank(cmd.ifren)|
      reads this
    {
      Bank(cmd.ifren)[adr / 4]
    }

    method SetLatency(delay: nat)
      requires Idle()
      modifies this`cmd
      ensures Idle() && cmd.delay == delay
    {
      cmd := cmd.(delay := delay);
    }

    /** Reads the word that holds address a; nothing but the address register changes. */
    method ReadWord(a: nat, inInfo: bool) returns (data: Word)
      requires Idle() && a / 4 < |Bank(inInfo)|
      modifies this
      ensures Idle() && cmd == old(cmd) && main == old(main) && info == old(info)
      ensures data == Bank(inInfo)[a / 4]
    {
      key := ACCESS_KEY;
      var command := Latency(cmd).(con := true);
      command := command.(ifren := inInfo);
      WriteCmd(command);
      WriteAdr(a);
      WriteCmd(command.(xe := true, ye := true, se := true));
      data := DataOut();
      command := Latency(command);
      WriteCmd(command);
      key := 0;
    }

    method ReadByte(a: nat, inInfo: bool) returns (data: Word)
      requires Idle() && a / 4 < |Bank(inInfo)| && Proper(Bank(inInfo))
      modifies this
      ensures Idle() && cmd == old(cmd) && main == old(main) && info == old(info)
      ensures data == Bytes(Bank(inInfo))[a]
    {
      var w := ReadWord(a, inInfo);
      data := ShiftRight(w, 8 * (a % 4)) * Mask(0, 8);
    }

    method ReadHalfWord(a: nat, inInfo: bool) returns (data: Word)
      requires Idle() && a % 2 == 0 && a / 4 < |Bank(inInfo)| && Proper(Bank(inInfo))
      modifies this
      ensures Idle() && cmd == old(cmd) && main == old(main) && info == old(info)
      ensures Lane(data, 0) == Bytes(Bank(inInfo))[a] && Lane(data, 1) == Bytes(Bank(inInfo))[a + 1]
      ensures data <= Mask(0, 16)
    {
      var w := ReadWord(a, inInfo);
      data := ShiftRight(w, 8 * (a % 4)) * Mask(0, 16);
    }

    /** Programs the word that holds address a: it loses the bits that are 0 in the data, and no
        other word changes. */
    method ProgramWordAt(a: nat, inInfo: bool, data: Word)
      requires Idle() && a / 4 < |Bank(inInfo)|
      modifies this
      ensures Idle() && cmd == old(cmd) && adr == a && di == data
      ensures Bank(inInfo) == Programmed(old(Bank(inInfo)), a / 4, data) && Bank(!inInfo) == old(Bank(!inInfo))
    {
      key := ACCESS_KEY;
      var command := Latency(cmd);
      command := command.(con := true, ifren := inInfo);
      WriteCmd(command);
      WriteAdr(a);
      di := data;
      command := command.(xe := true, prog := true);
      WriteCmd(command);
      command := command.(nvstr := true);
      WriteCmd(command);
      command := command.(ye := true);
      WriteCmd(command);
      command := command.(ye := false);
      WriteCmd(command);
      command := command.(prog := false);
      WriteCmd(command);
      command := command.(xe := false, nvstr := false);
      WriteCmd(command);
      WriteCmd(Latency(command));
      key := 0;
    }

    /** The operations of the driver, each against what it does to its bank. */
    method Program(op: Op, inInfo: bool)
      requires Idle() && Width(op) > 0 && InBank(op, |Bank(inInfo)|)
      modifies this
      ensures Idle() && cmd == old(cmd)
      ensures Bank(inInfo) == Apply(old(Bank(inInfo)), op) && Bank(!inInfo) == old(Bank(!inInfo))
    {
      match op
      case ProgramByte(a, data) =>
        var tmp := ReadWord(a, inInfo);
        ProgramWordAt(a, inInfo, Merge(tmp, data, 8 * (a % 4), 8));
      case ProgramHalfWord(a, data) =>
        var tmp := ReadWord(a, inInfo);
        ProgramWordAt(a, inInfo, Merge(tmp, data, 8 * (a % 4), 16));
      case ProgramWord(a, data) =>
        ProgramWordAt(a, inInfo, data);
    }

    /** One round of an erase loop, from the base command back to the base command: one lane of a
        page, or of the bank, is erased. */
    method EraseLane(a: nat, base: Cmd, mass: bool)
      requires key == ACCESS_KEY && cmd == base == Latency(base).(con := true, ifren := base.ifren)
      modifies this`cmd, this`adr, this`di, this`main, this`info
      ensures cmd == base && adr == a && di == {}
      ensures main == if !base.ifren || mass then LaneErased(old(main), a / 4, mass) else old(main)
      ensures info == if base.ifren then LaneErased(old(info), a / 4, mass) else old(info)
    {
      WriteAdr(a);
      di := {};
      var command := base.(xe := true, mas1 := mass, erase := true);
      WriteCmd(command);
      command := command.(nvstr := true);
      WriteCmd(command);
      command := command.(erase := false);
      WriteCmd(command);
      command := command.(xe := false, mas1 := false, nvstr := false);
      WriteCmd(command);
    }

    /** The loop of a page erase. */
    method EraseFourLanes(a: nat, base: Cmd)
      requires key == ACCESS_KEY && cmd == base == Latency(base).(con := true, ifren := base.ifren)
      modifies this`cmd, this`adr, this`di, this`main, this`info
      ensures cmd == base
      ensures LanesErased(old(Bank(base.ifren)), Bank(base.ifren), a / 4, 4, false)
      ensures Bank(!base.ifren) == old(Bank(!base.ifren))
    {
      ghost var was, other := Bank(base.ifren), Bank(!base.ifren);
      for k := 0 to 4
        invariant cmd == base
        invariant LanesErased(was, Bank(base.ifren), a / 4, k, false)
        invariant Bank(!base.ifren) == other
      {
        ghost var now := Bank(base.ifren);
        OneMoreLane(was, now, a / 4, k, false);
        NextWord(a, k);
        EraseLane(a + 4 * k, base, false);
        assert Bank(base.ifren) == LaneErased(now, a / 4 + k, false);
      }
    }

    /** Erases the page of address a, if that is not one of the last three words of the page. */
    method ErasePageAt(a: nat, inInfo: bool)
      requires Idle() && a / 4 < |Bank(inInfo)|
      modifies this
      ensures Idle() && cmd == old(cmd)
      ensures Bank(inInfo) == Apply(old(Bank(inInfo)), ErasePage(a)) && Bank(!inInfo) == old(Bank(!inInfo))
    {
      key := ACCESS_KEY;
      var command := Latency(cmd).(con := true);
      command := command.(ifren := inInfo);
      WriteCmd(command);
      EraseFourLanes(a, command);
      FourLanes(old(Bank(inInfo)), Bank(inInfo), a / 4, false);
      WriteCmd(Latency(command));
      key := 0;
    }

    /** Erases the main bank, or both banks. */
    method EraseAllPages(allBanks: bool)
      requires Idle()
      modifies this
      ensures Idle() && cmd == old(cmd)
      ensures main == Apply(old(main), EraseAll)
      ensures info == if allBanks then Apply(old(info), EraseAll) else old(info)
    {
      key := ACCESS_KEY;
      var command := Latency(cmd).(con := true);
      command := command.(ifren := allBanks);
      WriteCmd(command);
      for k := 0 to 4
        invariant key == ACCESS_KEY && cmd == command
        invariant LanesErased(old(main), main, 0, k, true)
        invariant if allBanks then LanesErased(old(info), info, 0, k, true) else info == old(info)
      {
        OneMoreLane(old(main), main, 0, k, true);
        if allBanks {
          OneMoreLane(old(info), info, 0, k, true);
        }
        EraseLane(4 * k, command, true);
      }
      FourLanes(old(main), main, 0, true);
      if allBanks {
        FourLanes(old(info), info, 0, true);
      }
      WriteCmd(Latency(command));
      key := 0;
    }

    /** One call of the driver, seen on the bytes of both banks. */
    method PerformOne(c: Call)
      requires Idle() && Proper(main) && Proper(info) && InBank(c.op, |Bank(c.inInfo)|)
      modifies this
      ensures Idle() && cmd == old(cmd) && Proper(main) && Proper(info)
      ensures |main| == |old(main)| && Bytes(main) == Effect(Bytes(old(main)), c, false)
      ensures |info| == |old(info)| && Bytes(info) == Effect(Bytes(old(info)), c, true)
    {
      ApplyIsStore(Bank(c.inInfo), c.op);
      ApplyIsStore(main, EraseAll);
      match c.op
      case ErasePage(a) => ErasePageAt(a, c.inInfo);
      case EraseAll => EraseAllPages(c.inInfo);
      case _ => Program(c.op, c.inInfo);
    }

    /** Any run of programs and erases leaves in each bank what the byte store would hold, and the
        latency and the lock as they were. */
    method Perform(calls: seq<Call>)
      requires Idle() && Proper(main) && Proper(info)
      requires forall c :: c in calls ==> InBank(c.op, |Bank(c.inInfo)|)
      modifies this
      ensures Idle() && cmd == old(cmd) && Proper(main) && Proper(info)
      ensures Bytes(main) == StoreAll(Bytes(old(main)), SeenBy(calls, false))
      ensures Bytes(info) == StoreAll(Bytes(old(info)), SeenBy(calls, true))
      decreases |calls|
    {
      if calls != [] {
        FirstCall(Bytes(main), calls, false);
        FirstCall(Bytes(info), calls, true);
        PerformOne(calls[0]);
        Perform(calls[1..]);
      }
    }
  }
}
