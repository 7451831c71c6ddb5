/** The descriptor table in memory and the calls that fill and read it. */
module DmaDriver {
  import opened Machine
  import opened Dma

  const CHANNELS: nat := 32

  class Controller {
    /** The primary descriptors of the channels and, behind them, the alternate ones. */
    const table: array<Descriptor>
    /** The address of the table, which the driver writes to CTRL_BASE_PTR. */
    const address: word

    constructor (address: word)
      ensures Valid() && fresh(table) && this.address == address
    {
      this.table := new Descriptor[2 * CHANNELS](_ => Descriptor(0, 0, 0));
      this.address := address;
    }

    ghost predicate Valid() {
      table.Length == 2 * CHANNELS
    }

    /** The table entry of a channel. */
    static function Entry(channel: nat, primary: bool): (at: nat)
      requires channel < CHANNELS
      ensures at < 2 * CHANNELS
    {
      if primary then channel else CHANNELS + channel
    }

    /** `DMA_CtrlDataInit` on one entry: it becomes the descriptor of the parameters, and no other
        entry changes. */
    method CtrlDataInit(i: CtrlInit, at: nat)
      requires Valid() && at < 2 * CHANNELS && Checked(i)
      modifies table
      ensures table[..] == old(table[..])[at := CtrlData(i)]
    {
      var srcEnd: word := i.srcBase;
      if i.srcInc != IncNo {
        srcEnd := U32(i.srcBase + Scaled(i.cycle - 1, i.srcInc));
      }
      var dstEnd: word := i.dstBase;
      if i.mode == MemScatterPri {
        dstEnd := U32(i.dstBase + 12);
      } else if i.dstInc != IncNo {
        dstEnd := U32(i.dstBase + Scaled(i.cycle - 1, i.dstInc));
      }
      OrIsControl(i);
      table[at] := Descriptor(srcEnd, dstEnd, OrOfFields(i));
    }

    method CtrlInitChannel(channel: nat, primary: bool, i: CtrlInit)
      requires Valid() && channel < CHANNELS && Checked(i)
      modifies table
      ensures table[..] == old(table[..])[if primary then channel else 32 + channel := CtrlData(i)]
    {
      CtrlDataInit(i, Entry(channel, primary));
    }

    /** `DMA_SG_Init`: the primary entry of the channel is set to gather `t` tasks into the
        alternate entry of the same channel. */
    method SgInit(channel: nat, base: word, t: nat, srcProt: nat, dstProt: nat)
      requires Valid() && channel < CHANNELS
      requires 1 <= t <= 256 && srcProt < 8 && dstProt < 8
      modifies table
      ensures table[..] == old(table[..])[channel :=
        CtrlData(PrimaryInit(base, U32(address + 16 * (32 + channel)), t, srcProt, dstProt))]
    {
      var alt := U32(address + 16 * Entry(channel, false));
      CtrlDataInit(CtrlInit(base, alt, IncWord, IncWord, SizeWord, MemScatterPri, 4 * t, 2, srcProt, dstProt),
                   channel);
    }

    /** A fresh descriptor counts its whole cycle. */
    method GetCurrTransferCounter(channel: nat, primary: bool) returns (n: nat)
      requires Valid() && channel < CHANNELS
      ensures n == Counter(table[if primary then channel else 32 + channel].control)
      ensures forall i :: Checked(i) && table[if primary then channel else 32 + channel] == CtrlData(i) ==> n == i.cycle
    {
      n := table[Entry(channel, primary)].control / 0x10 % 0x400 + 1;
      forall i | Checked(i) && table[Entry(channel, primary)] == CtrlData(i) ensures n == i.cycle {
        FieldsDecode(i, Control(i));
      }
    }
  }
}
