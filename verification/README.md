# Firmware models for the 1986VE1T Ethernet board

A Dafny model of the parts of this firmware that carry state or arithmetic, with proofs of what
they do over whole runs. `dafny verify dfyconfig.toml` checks everything.

| file | what it models |
|---|---|
| `Machine.dfy`, `Bits.dfy`, `WordBits.dfy`, `Ring.dfy` | 32-bit arithmetic, or on numbers, words as sets of bits, circular reads and writes |
| `EthReceive.dfy`, `EthTransmit.dfy` | the two rings of the Ethernet packet memory as systems of driver and MAC |
| `EthPort.dfy` | the transmit side in FIFO mode, with the DMA channel and the MAC at its two ends |
| `EthDriver.dfy`, `EthTraffic.dfy` | the frame copies of the driver, and the burst generator that uses them |
| `Mailbox.dfy`, `MailboxCalls.dfy` | the lwIP mailbox of the FreeRTOS port as interleaved steps, and what its calls do for their callers over whole runs |
| `Dma.dfy`, `DmaDriver.dfy` | DMA descriptors, the engine that walks them, and the table calls |
| `FlashStore.dfy`, `FlashDriver.dfy` | flash words that only lose bits, the byte store over them, and the register sequences |
| `CanBuffers.dfy`, `CanDriver.dfy` | the 32 CAN message buffers over whole runs, and the driver calls |
| `Netconf.dfy` | the periodic handler: timers on a wrapping clock, and the DHCP state machine |
| `Ebc.dfy`, `Led.dfy` | external bus timing, LED text and glyph buffers |

## What turned out not to hold

- A received frame that ends exactly on the delimiter leaves `R_Head` on the delimiter, one past the
  ring. The frame is delivered rightly, but the queue discipline is kept if and only if no frame ends
  there (`EthReceive.FetchKeepsFifoIff`); afterwards the poll sees a frame that is not there
  (`EthReceive.StrandedHead`) and the copy loop is bounded only by 2^32 - 1
  (`EthDriver.StrandedHeadRunsAway`). Frames of 1500, 1500 and 1084 bytes after a reset get there
  (`EthReceive.DelimiterReached`).
- A linear send whose reserved word is the last word of the memory leaves `X_Tail` at 0, inside the
  receive ring: the pointer is masked before the comparison that was to catch this. The queue
  discipline is kept if and only if no send fits exactly (`EthTransmit.SendKeepsFifoIff`); the send
  after it writes over the receive ring (`EthDriver.StrandedTailOverwrites`). Frames of 1500, 1500
  and 1072 bytes after a reset get there (`EthTransmit.ExactFitReached`).
- `DMA_GetCurrTransferCounter` is documented to return the number of remaining transfers. It does so
  if and only if the mode bits beside the count are set and the controller has just arbitrated
  (`Dma.CounterTracksCycle`): a finished cycle still counts 1, and in between the count in memory is
  that of the last arbitration. So it can be relied on whenever the mode bits are set if and only if the
  controller arbitrates after every transfer or the cycle has only one (`Dma.CounterReliableIff`). For
  received Ethernet frames, which ask for 1024 transfers at a time, it stands at the length of the
  frame until the last word (`Dma.FrameCounterStands`).
- `DMA_CtrlDataInit` ends the destination of a memory scatter-gather at the alternate descriptor, but not
  that of a peripheral one: the primary cycle of that writes to the alternate descriptor if and only if
  there is one task (`Dma.PeripheralPrimaryMisses`).
- A scatter-gather runs all its records if and only if every one but the last has the alternate mode
  (`Dma.ScatterGatherRunsTasks`, `Dma.AllReachedIff`); `DMA_SG_CtrlInit` takes any mode.
- In FIFO mode a received frame that announces no data makes the DMA channel move 1024 words of the port
  to the word below the buffer (`Dma.EmptyFrameRx`).
- The search for an empty CAN transfer buffer can return one that is armed to answer a remote
  request, and the transmit disarms it (`CanBuffers.EmptySearchTakesReply`); the search for a disabled
  buffer cannot (`CanBuffers.TransmitIsSafe`).
- A periodic timer keeps its time over all polls at most g apart if and only if its period and g
  together do not exceed 2^32 (`Netconf.KeepsTimeIff`). Otherwise polls that reach period - 1 and then
  skip to 2^32 miss it, because the clock then reads what it read at boot (`Netconf.LatePollsMiss`).
- The task whose delay `sys_mbox_free` aborts may have left the mailbox in the meantime: it is still in
  its fetch if and only if `xTask` is still set when the delay is aborted
  (`Mailbox.FreeWakesTheFetcher`; `Mailbox.StaleWake` is a run where it is not).
- That abort ends the fetch if and only if the task is blocked in its receive. A task that is about to
  receive can still block afterwards, and only such a task can (`Mailbox.AbortEndsFetchIff`); if it
  fetches without limit it then stays blocked (`Mailbox.LostWake`, `Mailbox.StaysBlocked`).
- `EEPROM_ErasePage` erases the page of its address if and only if that is not one of the last three
  words of the page (`FlashStore.ErasesItsPageIff`): its four rounds count on from the address.

## What the model takes for granted

- The ring theorems are about the linear and the automatic branch of `ETH_ReceivedFrame` and
  `ETH_SendFrame`. Linear mode is the default of `ETH_StructInit` (`Application/MDR32F9Qx_eth.c:320`).
  In this repository only `Eth_TrafficTX.c` calls the two functions, and it selects FIFO mode on line
  92, so `EthTraffic.BurstOnWire` is about the port and `EthTraffic.BurstThroughRing` about the modes
  commented out around it. `Application/Main.c:412` selects automatic mode. The `ethernetif.c` ports
  select linear mode but copy frames with functions of their own, which are not part of this model.
- In automatic mode the controller moves the receive head and the transmit tail past a frame and wraps
  them inside their rings.
- In FIFO mode the port takes every word the DMA channel writes, and the half flag is set when half of
  the transmit memory or more is waiting. A caller's buffer lies below the end of the address space.
- The packet memory is 8 KiB aligned, and the delimiter, heads and tails are multiples of 4. The MAC
  stores a received frame only if a free word remains, and wraps its own pointers. `X_HALF` is set
  when half of the transmit ring or more is waiting.
- The DMA engine follows the ARM PrimeCell uDMA controller (PL230): its address rule; the write-back of
  the count when it arbitrates, every 2^R transfers, and at the end; a destination that counts within
  groups of four in the primary cycle of a scatter-gather, of memory or of a peripheral; and a way back
  to the primary descriptor only from a record in the alternate mode. The transfers of the tasks do not
  write over the array of tasks.
- A flash page has 1024 words; an erase pulse clears the words of one page, or of a bank, whose index
  has the same residue modulo 4 as the addressed one, and none if the page is past the end of the
  bank; the controller ignores the two low address bits.
- FreeRTOS queues are atomic FIFOs. A receive with `portMAX_DELAY` waits without limit, other blocking
  calls may give up at any moment. A call on a NULL queue does not return; a deleted queue gives and
  takes nothing and wakes nobody.
- The DHCP half of `netconf.c` is compiled only with `__USE_DHCP`, which `Application/main.h:30` leaves
  commented out; the model has it.
- `ARP_TMR_INTERVAL` is 1000 ms, as in the lwIP 2.1.2 header on the include path; the comment beside
  the call says 5 s.
- `EEPROM_ProgramByte` hands unaligned addresses to calls whose parameter checks ask for aligned ones;
  the checks are compiled out (`USE_ASSERT_INFO` is 0), so the model follows the code.

## Model

| member | source | states |
|---|---|---|
| EthReceive.FetchIsOldest | Application/MDR32F9Qx_eth.c:978-1005 | whenever the pointers differ, the whole frame at the head lies in the ring and a circular read behind its status word yields the oldest frame not yet delivered |
| EthReceive.ArriveKeepsFifo | Application/MDR32F9Qx_eth.c:978-1008 | a frame stored by the MAC joins the end of the queue and disturbs none before it |
| EthReceive.FetchKeepsFifoIff | Application/MDR32F9Qx_eth.c:985-1040 | a fetch always delivers the right frame, and leaves the ring a queue in automatic mode, and in linear mode if and only if the frame does not end on the delimiter |
| EthReceive.FetchInNumbers | Application/MDR32F9Qx_eth.c:981-1007 | with a status word of any flags in its upper and a length n in its lower half, a fetch delivers the (n + 3) / 4 words behind it and leaves the head behind them |
| EthReceive.FrameInNumbers | Application/MDR32F9Qx_eth.c:985-1018 | the frame at a head and the head after it, from the lower half of the status word alone |
| EthReceive.StrandedHead | Application/MDR32F9Qx_eth.c:1007 | after a frame that ends on the delimiter the head is outside the ring and differs from the tail whatever is queued |
| EthReceive.DelimiterReached | Application/MDR32F9Qx_eth.c:978-1007 | a run from reset with three frames of ordinary size ends in that case, with the poll seeing a frame after all have been delivered |
| EthReceive.NextHeadCongruent | Application/MDR32F9Qx_eth.c:1007 | the new head is congruent to head + 4 + 4 words modulo the delimiter |
| EthReceive.DeliveredInArrivalOrder | Application/MDR32F9Qx_eth.c:978-1040 | in every run from reset, in linear mode without such a frame, what was delivered is a prefix of what arrived, and all of it exactly when the pointers meet |
| EthDriver.PiecesInsideRing | Application/MDR32F9Qx_eth.c:985-1002 | inside the ring the mixed signed and unsigned arithmetic gives the words before the delimiter as the first piece |
| EthDriver.StrandedHeadRunsAway | Application/MDR32F9Qx_eth.c:985-994 | with the head on the delimiter the bound of the first copy loop is 2^32 - 1, whatever the length |
| EthDriver.LaidIsWrite | Application/MDR32F9Qx_eth.c:1086-1101 | with the tail in its ring the two loops of the transmit path are a circular write |
| EthDriver.StrandedTailOverwrites | Application/MDR32F9Qx_eth.c:1084-1104 | with the tail at 0 a send leaves the receive ring as it was if and only if it sends the words already there |
| EthDriver.Mac.CopyOut | Application/MDR32F9Qx_eth.c:985-1005 | the two-piece copy is a circular read of the ring into the start of the buffer, and the rest of the buffer is unchanged |
| EthDriver.Mac.ReceiveLinear | Application/MDR32F9Qx_eth.c:978-1008 | the status word, the words its lower half announces as a circular read behind it, and the head moved past them |
| EthDriver.Mac.ReceiveAutomatic | Application/MDR32F9Qx_eth.c:1010-1040 | the same frame with the head left to the controller |
| EthDriver.Mac.DmaFrameRx | Application/MDR32F9Qx_eth.c:1170-1200 | the engine run by the hand-packed descriptor until the busy-wait ends moves n words of the port to the buffer in order, and no other |
| EthDriver.Mac.DmaFrameTx | Application/MDR32F9Qx_eth.c:1209-1237 | the same from the buffer to the port |
| EthDriver.Mac.ReceiveFifo | Application/MDR32F9Qx_eth.c:1042-1051 | the first word of the port as status and the words its lower half announces leave the port in order, and nothing else does |
| EthDriver.Mac.ReceivedFrame | Application/MDR32F9Qx_eth.c:963-1055 | in each of the three modes the frame delivered, in numbers of the status word, the new head and the new port contents |
| EthDriver.Mac.CopyIn | Application/MDR32F9Qx_eth.c:1086-1101 | the two-piece copy into the packet memory, which is a circular write and leaves the receive ring alone if the tail is in its ring |
| EthDriver.Mac.SendLinear | Application/MDR32F9Qx_eth.c:1082-1108 | that copy of the image, and the tail moved by the footprint, or to 0 on an exact fit; from a stranded tail it moves on through the receive ring |
| EthDriver.Mac.SendFrame | Application/MDR32F9Qx_eth.c:1067-1137 | all three modes take up ceil(len/4) + 2 words, and none touches the receive ring while the tail is in its own |
| EthTransmit.SendPreserves | Application/MDR32F9Qx_eth.c:1084-1101 | a gated send overwrites no word waiting to be sent and nothing of the receive ring |
| EthTransmit.SendExtends | Application/MDR32F9Qx_eth.c:1084-1128 | a gated send that leaves the tail in the ring adds the image of its frame and one more word to it |
| EthTransmit.SendKeepsFifoIff | Application/MDR32F9Qx_eth.c:1084-1128 | a gated send leaves the ring a queue in automatic mode, and in linear mode if and only if it is not an exact fit |
| EthTransmit.ExactFitReached | Application/MDR32F9Qx_eth.c:1102-1107 | a run from reset with frames of ordinary size leads to an exact fit, which puts the tail at 0 |
| EthTransmit.TakeOne | Application/MDR32F9Qx_eth.c:1088-1090 | a MAC that reads word by word and finds frame boundaries from the length words it reads stays in step with the frames as written |
| EthTransmit.EmittedInOrder | Application/Eth_TrafficTX.c:170-188 | in every interleaving of gated sends with MAC reads, in linear mode without an exact fit, the frames emitted are a prefix of the frames sent, all of them exactly when the pointers meet, and the receive ring is untouched |
| EthTraffic.GateAdmits | Application/Eth_TrafficTX.c:177-184 | with the delimiter at 0x1000, every frame up to 1518 bytes may be sent exactly when the half flag is clear |
| EthTraffic.Generator.FillFrameTX | Application/Eth_TrafficTX.c:193-231 | every byte of the answer frame, and no byte past it changed |
| EthTraffic.Generator.TaskProcess | Application/Eth_TrafficTX.c:139-190 | the buffers sent are a burst: the requested number, at least one, of copies of one answer frame, numbered from 0 |
| EthTraffic.BufferIsImage | Application/Eth_TrafficTX.c:187 | the words the driver copies out of the byte buffer start with the control word and the data of the frame in it |
| EthTraffic.NumberedFrame | Application/Eth_TrafficTX.c:172-175 | the number written into the byte buffer is the one a receiver reads at the start of the payload |
| EthPort.EmitsInOrder | Application/MDR32F9Qx_eth.c:1130-1135 | in FIFO mode, in every interleaving of gated sends, DMA writes and MAC reads, the port never overflows and the frames emitted are a prefix of the frames sent, all of them exactly when no word is left |
| EthTraffic.FramesOfBurst | Application/Eth_TrafficTX.c:170-188 | sends that copy the buffers of a burst send the frames in them, which carry the numbers 0, 1, 2, ... |
| EthTraffic.BurstOnWire | Application/Eth_TrafficTX.c:92-188 | in the FIFO mode the file selects, in every interleaving of the sends of the burst the generator makes, the frames on the wire are those of its buffers in the order of their numbers, all that were handed over once the port is empty |
| EthTraffic.BurstThroughRing | Application/Eth_TrafficTX.c:91-188 | the same in linear and automatic mode |
| Mailbox.WaiterStep | 2.1.2/ports/freertos/sys_arch.c:244-295 | every step keeps `xTask` equal to t exactly while t is between registering and clearing |
| Mailbox.ConservedStep | 2.1.2/ports/freertos/sys_arch.c:150-194 | every step keeps messages posted equal to messages fetched followed by messages queued |
| Mailbox.ConsistentStep | 2.1.2/ports/freertos/sys_arch.c:267-293 | every step keeps a call's pending result true to what it has taken from or put into the queue |
| Mailbox.CapturedStep | 2.1.2/ports/freertos/sys_arch.c:126-135 | every step keeps the waiter captured by a free equal to the registered fetcher, if there is one |
| Mailbox.OneFetcher | 2.1.2/ports/freertos/sys_arch.c:231-299 | in every run of a new mailbox `xTask` is t exactly while t fetches, and at most one fetcher is registered |
| Mailbox.MessagesConserved | 2.1.2/ports/freertos/sys_arch.c:150-346 | in every run messages leave in the order posted; a fetch reports success exactly when it took a message, a try exactly when it moved one, and a returning post put exactly one |
| Mailbox.AfterFree | 2.1.2/ports/freertos/sys_arch.c:283-295 | after the handle is cleared no fetch registers, a fetch under way takes at most four more steps of its own, and at most one of them is a further receive |
| Mailbox.FreeWakesTheFetcher | 2.1.2/ports/freertos/sys_arch.c:126-135 | in every run, when a free is about to abort the delay of the task it captured, no other task is registered, and that task is still in its fetch if and only if `xTask` is still set |
| Mailbox.StaleWake | 2.1.2/ports/freertos/sys_arch.c:126-135 | a run in which the captured task has ended its fetch before its delay is aborted |
| Mailbox.AbortEndsFetchIff | 2.1.2/ports/freertos/sys_arch.c:132-287 | in every run the abort wakes the captured task if and only if it is blocked in its receive, and the task is certain never to block in the mailbox again if and only if it was not about to receive |
| Mailbox.StaysBlocked | 2.1.2/ports/freertos/sys_arch.c:283-287 | a fetch without limit that is blocked on the deleted queue after the abort stays blocked in every run in which nothing outside the mailbox wakes it |
| Mailbox.LostWake | 2.1.2/ports/freertos/sys_arch.c:126-137 | a run that leads there |
| MailboxCalls.MessagesReachTheirCallers | 2.1.2/ports/freertos/sys_arch.c:150-346 | in every run the messages each task took out are those left in the buffers of its successful calls, in order; those it put in are those its posts and successful tries report; and its posts and tries are for the messages handed to it |
| MailboxCalls.FetchKeepsTrying | 2.1.2/ports/freertos/sys_arch.c:281-287 | a fetch without limit goes on trying while the mailbox is open, however often a receive fails, until one takes a message |
| MailboxCalls.OnlyFreeGivesUp | 2.1.2/ports/freertos/sys_arch.c:281-295 | in every run, as long as the mailbox is open, every registered fetch without limit that returned did so with a message, and no call hangs |
| MailboxCalls.PostKeepsTrying | 2.1.2/ports/freertos/sys_arch.c:150-153 | a post neither returns nor changes its message until a send succeeds |
| MailboxCalls.LimitedTriesOnce | 2.1.2/ports/freertos/sys_arch.c:267-279 | a limited fetch makes one attempt only |
| MailboxCalls.RefusedIff | 2.1.2/ports/freertos/sys_arch.c:244-262 | a fetch is turned away if and only if the handle is NULL or another task is registered |
| MailboxCalls.TrySucceedsIff | 2.1.2/ports/freertos/sys_arch.c:168-346 | a try moves its message, and says so, if and only if there is room, or a message, at that moment |
| MailboxCalls.CallsStart | 2.1.2/ports/freertos/sys_arch.c:150-346 | on an open mailbox each post and try takes up the message of its caller |
| Dma.OrIsControl | Libraries/MDR32F9Qx_StdPeriph_Driver/src/MDR32F9Qx_dma.c:161-168 | the or of the shifted parameters places every field of the PL230 layout without overlap |
| Dma.FieldsDecode | Libraries/MDR32F9Qx_StdPeriph_Driver/src/MDR32F9Qx_dma.c:161-168 | every field of a packed control word decodes to the parameter it came from |
| Dma.PackedNumbers | Libraries/MDR32F9Qx_StdPeriph_Driver/src/MDR32F9Qx_dma.c:161-168 | the modes, sizes and increments of a packed control word as the numbers of the driver's header |
| Dma.AfterCounts | Libraries/MDR32F9Qx_StdPeriph_Driver/src/MDR32F9Qx_dma.c:458-466 | after j transfers the engine's view of a descriptor has j fewer to go and is otherwise the same |
| Dma.CycleTouches | Libraries/MDR32F9Qx_StdPeriph_Driver/src/MDR32F9Qx_dma.c:129-168 | running the engine on a packed descriptor that is not stopped and not the primary of a scatter-gather touches base + k increments at transfer k on both sides, for every base, increment and cycle size |
| Dma.CycleIsMoves | Libraries/MDR32F9Qx_StdPeriph_Driver/src/MDR32F9Qx_dma.c:129-168 | the whole cycle of a packed descriptor is unit 0, 1, 2, ... of the two areas the caller gave, in bytes, half-words or words, or a fixed location |
| Dma.ShownCount | Libraries/MDR32F9Qx_StdPeriph_Driver/src/MDR32F9Qx_dma.c:458-487 | what the counter reads at every moment: the transfers left at the last arbitration, or 1 when the cycle is over |
| Dma.CounterTracksCycle | Libraries/MDR32F9Qx_StdPeriph_Driver/src/MDR32F9Qx_dma.c:458-487 | the counter equals the transfers left if and only if the mode bits of the same word are set and the controller has just arbitrated |
| Dma.CounterReliableIff | Libraries/MDR32F9Qx_StdPeriph_Driver/src/MDR32F9Qx_dma.c:458-487 | it does so at every moment at which the mode bits are set if and only if the controller arbitrates after every transfer or there is only one |
| Dma.FrameCounterStands | Application/MDR32F9Qx_eth.c:1177-1184 | for a received frame the counter reads the length of the frame until the last word has moved |
| Dma.PollSeesCompletion | Application/MDR32F9Qx_eth.c:1189-1196 | the busy-wait on the mode bits in memory ends exactly when the last transfer is done |
| Dma.FramesAreCtrlData | Application/MDR32F9Qx_eth.c:1177-1223 | the hand-packed frame descriptors equal those of the same parameters |
| Dma.FrameRxMoves | Application/MDR32F9Qx_eth.c:1170-1184 | a received frame is n reads of the port into n consecutive words |
| Dma.FrameTxMoves | Application/MDR32F9Qx_eth.c:1209-1223 | a sent frame is n consecutive words written to the port in order |
| Dma.FrameRxRuns | Application/MDR32F9Qx_eth.c:1177-1196 | after k transfers the driver still waits if and only if there is another, which reads the port into word k |
| Dma.FrameTxRuns | Application/MDR32F9Qx_eth.c:1215-1235 | the same for a sent frame |
| Dma.EmptyFrameRx | Application/MDR32F9Qx_eth.c:1177-1184 | the descriptor packed for 0 words makes the engine move 1024 words of the port to the word below the buffer |
| Dma.PrimaryTouches | Libraries/MDR32F9Qx_StdPeriph_Driver/src/MDR32F9Qx_dma.c:256-268 | transfer k of the primary cycle moves word k of the array to word k mod 4 of the alternate descriptor |
| Dma.PrimaryNumbers | Libraries/MDR32F9Qx_StdPeriph_Driver/src/MDR32F9Qx_dma.c:256-266 | mode, count, arbitration, protections, size and increments of the primary control word, in numbers |
| Dma.GroupLoadsTask | Libraries/MDR32F9Qx_StdPeriph_Driver/src/MDR32F9Qx_dma.c:256-268 | group g of four transfers leaves exactly record g in the alternate descriptor, whatever it held |
| Dma.PeripheralPrimaryMisses | Libraries/MDR32F9Qx_StdPeriph_Driver/src/MDR32F9Qx_dma.c:140-158 | the primary cycle of a peripheral scatter-gather of t tasks, packed the same way, writes t - 1 descriptors past the alternate one, so to it if and only if t is 1 |
| Dma.ScatterGatherRunsTasks | Libraries/MDR32F9Qx_StdPeriph_Driver/src/MDR32F9Qx_dma.c:238-268 | for up to 256 records the whole scatter-gather performs the transfers of each record, whole and in order, up to the first that does not have the alternate mode, and no others |
| Dma.AllReachedIff | Libraries/MDR32F9Qx_StdPeriph_Driver/src/MDR32F9Qx_dma.c:226-229 | those are all the records if and only if every one but the last has the alternate mode |
| Dma.ChainsIff | Libraries/MDR32F9Qx_StdPeriph_Driver/src/MDR32F9Qx_dma.c:161-229 | a packed record sends the controller back to the primary descriptor if and only if its mode is the alternate one |
| Dma.TasksRunWhole | Libraries/MDR32F9Qx_StdPeriph_Driver/src/MDR32F9Qx_dma.c:226-268 | from parameters to transfers: a scatter-gather over tasks packed with the alternate mode, but for the last, makes exactly the transfers each task asks for, in order |
| Dma.AllPackedReachedIff | Libraries/MDR32F9Qx_StdPeriph_Driver/src/MDR32F9Qx_dma.c:226-229 | of tasks packed from parameters all are reached if and only if every one but the last has the alternate mode |
| DmaDriver.Controller.CtrlDataInit | Libraries/MDR32F9Qx_StdPeriph_Driver/src/MDR32F9Qx_dma.c:113-169 | one table entry becomes the descriptor of the parameters and no other entry changes |
| DmaDriver.Controller.CtrlInitChannel | Libraries/MDR32F9Qx_StdPeriph_Driver/src/MDR32F9Qx_dma.c:199-214 | the primary or the alternate entry of the channel, and no other |
| DmaDriver.Controller.SgInit | Libraries/MDR32F9Qx_StdPeriph_Driver/src/MDR32F9Qx_dma.c:238-268 | the primary entry is set to gather into the alternate entry of the same channel |
| DmaDriver.Controller.GetCurrTransferCounter | Libraries/MDR32F9Qx_StdPeriph_Driver/src/MDR32F9Qx_dma.c:467-487 | a freshly written entry counts its whole cycle |
| FlashStore.MergedLane | Libraries/MDR32F9Qx_StdPeriph_Driver/src/MDR32F9Qx_eeprom.c:311-315 | programming a merged field clears bits of that field and of no other lane |
| FlashStore.ApplyIsStore | Libraries/MDR32F9Qx_StdPeriph_Driver/src/MDR32F9Qx_eeprom.c:303-388 | one driver operation on words is one operation on a byte store: target bytes lose bits, neighbours stay |
| FlashStore.RunIsStore | Libraries/MDR32F9Qx_StdPeriph_Driver/src/MDR32F9Qx_eeprom.c:216-388 | any run of programs and erases refines the byte store |
| FlashStore.PageErase | Libraries/MDR32F9Qx_StdPeriph_Driver/src/MDR32F9Qx_eeprom.c:228-244 | from an address that is not one of the last three words of a page the four rounds erase exactly the page |
| FlashStore.ErasesItsPageIff | Libraries/MDR32F9Qx_StdPeriph_Driver/src/MDR32F9Qx_eeprom.c:228-244 | with no word erased before, the page of the address and nothing else is erased if and only if the address is not one of the last three words of the page |
| FlashStore.EraseProgramRead | Libraries/MDR32F9Qx_StdPeriph_Driver/src/MDR32F9Qx_eeprom.c:110-388 | what is programmed into a page erased from such an address reads back exactly, at every alignment |
| FlashDriver.OneMoreLane | Libraries/MDR32F9Qx_StdPeriph_Driver/src/MDR32F9Qx_eeprom.c:228-244 | each round of the erase loop adds one residue class of words |
| FlashDriver.FourLanes | Libraries/MDR32F9Qx_StdPeriph_Driver/src/MDR32F9Qx_eeprom.c:228-244 | four rounds are the page erase of the word model, or the erase of the bank |
| FlashDriver.Eeprom.SetLatency | Libraries/MDR32F9Qx_StdPeriph_Driver/src/MDR32F9Qx_eeprom.c:92-99 | the latency is set and the registers stay idle |
| FlashDriver.Eeprom.ReadWord | Libraries/MDR32F9Qx_StdPeriph_Driver/src/MDR32F9Qx_eeprom.c:183-205 | the word of the address, by a legal command sequence that ends locked with the latency kept |
| FlashDriver.Eeprom.ReadByte | Libraries/MDR32F9Qx_StdPeriph_Driver/src/MDR32F9Qx_eeprom.c:110-135 | the byte of the address at every alignment |
| FlashDriver.Eeprom.ReadHalfWord | Libraries/MDR32F9Qx_StdPeriph_Driver/src/MDR32F9Qx_eeprom.c:146-172 | the two bytes of the address |
| FlashDriver.Eeprom.ProgramWordAt | Libraries/MDR32F9Qx_StdPeriph_Driver/src/MDR32F9Qx_eeprom.c:354-388 | one word of one bank loses the bits that are 0 in the data, by a legal sequence that keeps the latency |
| FlashDriver.Eeprom.Program | Libraries/MDR32F9Qx_StdPeriph_Driver/src/MDR32F9Qx_eeprom.c:303-342 | byte, half-word and word programs do to their bank what the word model says |
| FlashDriver.Eeprom.EraseLane | Libraries/MDR32F9Qx_StdPeriph_Driver/src/MDR32F9Qx_eeprom.c:230-243 | a round of the erase loop is legal, starts and ends at the same command, and erases one lane |
| FlashDriver.Eeprom.ErasePageAt | Libraries/MDR32F9Qx_StdPeriph_Driver/src/MDR32F9Qx_eeprom.c:216-248 | for every address its bank is erased as the word model says, the other bank and the latency survive |
| FlashDriver.Eeprom.EraseAllPages | Libraries/MDR32F9Qx_StdPeriph_Driver/src/MDR32F9Qx_eeprom.c:258-291 | exactly the main bank, or both banks, are erased and the latency kept |
| FlashDriver.FirstCall | Libraries/MDR32F9Qx_StdPeriph_Driver/src/MDR32F9Qx_eeprom.c:216-388 | the bytes of a bank after a run are those after the first call and the rest of the run |
| FlashDriver.Eeprom.Perform | Libraries/MDR32F9Qx_StdPeriph_Driver/src/MDR32F9Qx_eeprom.c:216-388 | any run of programs and erases on both banks, through the registers, leaves each bank as the byte store would, and latency and lock as they were |
| CanBuffers.WrittenIsSent | Libraries/MDR32F9Qx_StdPeriph_Driver/src/MDR32F9Qx_can.c:312-329 | the frame the controller puts on the bus is the message handed over, data or remote |
| CanBuffers.WrittenNumbers | Libraries/MDR32F9Qx_StdPeriph_Driver/src/MDR32F9Qx_can.c:312-329 | the registers written for each format and kind of message, in numbers |
| CanBuffers.TransmitIsSafe | Libraries/MDR32F9Qx_StdPeriph_Driver/src/MDR32F9Qx_can.c:252-289 | a buffer found by either search is neither pending nor armed for reception, and a reply buffer is only found by the search for empty ones |
| CanBuffers.EmptySearchTakesReply | Libraries/MDR32F9Qx_StdPeriph_Driver/src/MDR32F9Qx_can.c:276-289 | a reply armed after reset is found as an empty buffer and disarmed by the next transmit |
| CanBuffers.RequestedAndReleased | Libraries/MDR32F9Qx_StdPeriph_Driver/src/MDR32F9Qx_can.c:331-558 | a transmit leaves a buffer waiting to be sent with the priority of its message, and a release one that is free for the next search |
| CanBuffers.ReplyStandsReady | Libraries/MDR32F9Qx_StdPeriph_Driver/src/MDR32F9Qx_can.c:406-444 | an armed reply holds the data frame it was given and is not sent of its own accord |
| CanBuffers.ReceiveWaits | Libraries/MDR32F9Qx_StdPeriph_Driver/src/MDR32F9Qx_can.c:457-476 | after a receive call the controller can store a message in the buffer, and neither search finds it |
| CanBuffers.WaitsUntilReleased | Libraries/MDR32F9Qx_StdPeriph_Driver/src/MDR32F9Qx_can.c:457-558 | in every run it goes on waiting, whatever else happens, until it is released, and holds the last message received for it |
| CanBuffers.TransmitKeeps | Libraries/MDR32F9Qx_StdPeriph_Driver/src/MDR32F9Qx_can.c:300-344 | a transmit enters its message into the ledger without disturbing another |
| CanBuffers.ReleaseKeeps | Libraries/MDR32F9Qx_StdPeriph_Driver/src/MDR32F9Qx_can.c:547-558 | a release takes at most its own message out |
| CanBuffers.ExactlyOnce | Libraries/MDR32F9Qx_StdPeriph_Driver/src/MDR32F9Qx_can.c:300-558 | over every run an accepted message waits unaltered in its own buffer, or was released, or went out intact exactly once, and nothing else went out |
| CanDriver.ReadBackInverts | Libraries/MDR32F9Qx_StdPeriph_Driver/src/MDR32F9Qx_can.c:506-537 | reading a buffer inverts the encoding of a transmit for every length up to 8 |
| CanDriver.ReadsLatest | Libraries/MDR32F9Qx_StdPeriph_Driver/src/MDR32F9Qx_can.c:457-537 | in every run what is read from an armed buffer is the last message received for it, until it is released |
| CanDriver.ReadBufferSFR | Libraries/MDR32F9Qx_StdPeriph_Driver/src/MDR32F9Qx_can.c:911-936 | the workaround returns the true value if and only if that is 0 or one of the two reads was not glitched |
| CanDriver.Can.GetDisabledBuffer | Libraries/MDR32F9Qx_StdPeriph_Driver/src/MDR32F9Qx_can.c:252-266 | the least disabled buffer, or 32 when there is none |
| CanDriver.Can.GetEmptyTransferBuffer | Libraries/MDR32F9Qx_StdPeriph_Driver/src/MDR32F9Qx_can.c:276-289 | the least buffer enabled for transmission without a request, or 32 |
| CanDriver.Can.Transmit | Libraries/MDR32F9Qx_StdPeriph_Driver/src/MDR32F9Qx_can.c:300-344 | the registers and control bits of one buffer, and no other buffer |
| CanDriver.Can.SendRTR | Libraries/MDR32F9Qx_StdPeriph_Driver/src/MDR32F9Qx_can.c:355-394 | the same for a remote request, whose data registers are left alone |
| CanDriver.Can.RTRReply | Libraries/MDR32F9Qx_StdPeriph_Driver/src/MDR32F9Qx_can.c:406-444 | the same for an armed reply |
| CanDriver.Can.Receive | Libraries/MDR32F9Qx_StdPeriph_Driver/src/MDR32F9Qx_can.c:457-476 | the control bits of one buffer armed for reception |
| CanDriver.Can.BufferRelease | Libraries/MDR32F9Qx_StdPeriph_Driver/src/MDR32F9Qx_can.c:547-558 | one buffer disabled, its other bits kept |
| CanDriver.Can.GetRawReceivedData | Libraries/MDR32F9Qx_StdPeriph_Driver/src/MDR32F9Qx_can.c:506-537 | the message in the buffer, provided that no access has both its reads glitched |
| Netconf.PollKeepsTime | Application/netconf.c:122-125 | a poll that comes in time keeps the register at the last firing and the spacing of the firings |
| Netconf.FiresOnTime | Application/netconf.c:118-150 | for any sequence of polls at most g apart, across clock wraps, a task fires no sooner than its period and no later than period - 1 + g after its last firing |
| Netconf.FiresOnTimeFromBoot | Application/netconf.c:30-36 | the same counted from boot, where the registers are 0 |
| Netconf.LatePollsMiss | Application/netconf.c:122-123 | polls no more than g apart after which a task has not been called, though its period has passed |
| Netconf.KeepsTimeIff | Application/netconf.c:118-150 | a task keeps its time over all polls at most g apart if and only if period + g is at most 2^32 |
| Netconf.HandlerFires | Application/netconf.c:118-150 | in every run of the handler each of the four tasks is called exactly when its timer fires |
| Netconf.TasksOnTime | Application/netconf.c:118-150 | in every run from boot, with polls at most 2^32 - 60000 ms apart, the four tasks are called at the firings of timers that keep 250, 1000, 500 and 60000 ms |
| Netconf.RunKeepsProtocol | Application/netconf.c:134-143 | every run of the handler keeps the calls made so far in step with the DHCP state |
| Netconf.DhcpFromBoot | Application/netconf.c:134-213 | in every run from boot `dhcp_start` is called at most once, `dhcp_stop` at most once and only after it, the static address is set exactly on timeout, and the address is nonzero exactly when assigned |
| Netconf.NextState | Application/netconf.c:134-202 | which DHCP state and address follow which, in terms of the clock, the address and the number of tries, with the numbers 500 and 5 |
| Netconf.OutcomeHasCause | Application/netconf.c:170-202 | a run that was still waiting times out only on an input with no address and more than 5 tries, and settles only on the address of an input |
| Netconf.OutcomeFromBoot | Application/netconf.c:134-202 | in every run from boot DHCP is started by the first firing of the fine timer and not before; with neither such a failure nor an address it waits from then on |
| Netconf.FinalStatesAbsorb | Application/netconf.c:139-142 | the assigned and timed-out states are never left |
| Netconf.Handler.ProcessDhcp | Application/netconf.c:160-213 | one step of the DHCP state machine on the globals |
| Netconf.Handler.PeriodicHandle | Application/netconf.c:118-152 | one run of the handler on the globals, with the calls it makes in order |
| Ebc.GuardIsExact | Libraries/MDR32F9Qx_StdPeriph_Driver/src/MDR32F9Qx_ebc.c:173 | the division guard holds exactly when the product exceeds the limit |
| Ebc.WaitStatesAreLeast | Libraries/MDR32F9Qx_StdPeriph_Driver/src/MDR32F9Qx_ebc.c:165-195 | nothing overflows, and the result is the least w in 0..15 with (w + 3) 10^6 >= f t, or 0xFFFFFFFF exactly when there is none |
| Ebc.NandCyclesAreLeast | Libraries/MDR32F9Qx_StdPeriph_Driver/src/MDR32F9Qx_ebc.c:205-227 | the same for the least c with c 10^6 >= f t |
| Led.GlyphLane | Libraries/MDR32F9Qx_StdPeriph_Driver/src/MDR32F9Qx_led.c:582-585 | a packed word holds one shifted font byte of four consecutive characters |
| Led.Controller.InitDecodeBuf | Libraries/MDR32F9Qx_StdPeriph_Driver/src/MDR32F9Qx_led.c:577-588 | for every font, byte 256 i + j of the glyph buffer is font[5 j + i] shifted right by one |
| Led.Controller.PutChar | Libraries/MDR32F9Qx_StdPeriph_Driver/src/MDR32F9Qx_led.c:624-628 | one byte of the text buffer is replaced and no other changes |
| Led.Controller.PutString | Libraries/MDR32F9Qx_StdPeriph_Driver/src/MDR32F9Qx_led.c:612-630 | exactly the prefix of the string that fits below 256 is written and no other byte changes |
| Led.Controller.ClearFrame | Libraries/MDR32F9Qx_StdPeriph_Driver/src/MDR32F9Qx_led.c:595-604 | exactly the 64 words of the frame become 0 |

## Left out

- Mailbox.MessagesConserved: takes calls on the cleared handle to hang and calls on a deleted queue to
  move nothing; what freed memory really does is not modelled. The mailbox is modelled on values, as
  interleaved steps, because its calls run concurrently; NULL mailbox pointers, ISR variants and
  statistics are not modelled.
- EthTraffic.Generator.TaskProcess: asks for a requested length of 16..368 bytes, the sizes for which
  every access stays inside the 378-byte buffer; the source checks nothing.
- EthDriver.Mac.ReceivedFrame: asks for a frame that fits the ring and the caller's buffer; the source
  checks neither.
- EthDriver.Mac.DmaFrameRx: asks for at least one word; `Dma.EmptyFrameRx` says what none does.
- EthDriver.Mac.SendFrame: asks for a frame that fits the transmit ring, or one DMA cycle of 1024 words in
  FIFO mode; the source checks neither.
- EthPort.EmitsInOrder: the bits that start the DMA channel and disable it again are not modelled.
- CanBuffers.ExactlyOnce: answers that the controller sends by itself from a reply buffer are not
  logged, and `CAN_ITClearRxTxPendingBit` is not among the events.
- Clock, PHY and MAC initialisation, the `*_StructInit`, `*_Cmd` and `*_ITConfig` functions: single
  register writes.
- ADC, DAC, COMP, BKP, IWDG, I2C, AUDIO, ARINC429 and LED indicator drivers: mask-and-set members.
- lwIP itself: the timer and DHCP calls appear only as logged events.
- Semaphores, mutexes and threads of the FreeRTOS port, and the CMSIS-RTOS port: thin wrappers.
- Real time: delays and busy-waits are steps of the environment.
- The width of the flash latency field and of byte and half-word data: values are as wide as the
  operation that uses them.
