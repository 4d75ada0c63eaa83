# Proofs about the bsp_v3s board-support package

A Dafny model of the parts of this RT-Thread board-support package that hold state machines, protocols, loops
over tables or exact address arithmetic, with proofs of what they promise. `dafny verify dfyconfig.toml` checks
the whole project.

| file | models |
|---|---|
| `Words.dfy` | machine words: the bitwise operators and shifts of C, on natural numbers |
| `BlockCache.dfy` | the read-through block cache of `include/blk.h` |
| `PageTable.dfy` | the level-1 translation table of `cpu/mmu.c` |
| `Lcd.dfy` | double-buffered frame updates of `driver/drv_lcd.c`, and where the buffers lie in that table |
| `Gic.dfy` | the interrupt controller routines of `cpu/gic.c` |
| `Interrupts.dfy` | masking and unmasking, `cpu/interrupt.c` |
| `Dispatch.dfy` | the handler table and `rt_hw_trap_irq`, `cpu/interrupt.c` and `cpu/trap.c` |
| `SdHost.dfy` | the SD controller, `uboot/sunxi_mmc.c`: module clock, I/O settings, commands |
| `TfCard.dfy` | the SD card request path, monitor thread and clock cache of `driver/drv_tf.c` |
| `Pbufs.dfy` | pbuf chains and the frames they hold |
| `EmacRing.dfy` | what the descriptor rings of `uboot/sun8i_emac.c` have in common |
| `EmacTx.dfy` | transmission, `driver/drv_emac.c` and `uboot/sun8i_emac.c` |
| `EmacRx.dfy` | reception, the same files |
| `FdtCells.dfy` | big numbers and byte order, `include/fdt_support.h` and `include/compiler.h` |
| `AlignBuffer.dfy` | aligned and padded buffers, `include/memalign.h` |
| `CpuMask.dfy` | iteration over CPU masks, `include/common.h` |

Code that updates state is modelled by classes and methods with the source's own loops. Each method is proved
against a function on plain values, and the results about whole runs are lemmas about those functions. What a
driver, a piece of hardware or another thread does is a parameter: an event, a reply or a choice that a contract
predicate bounds.

## Results with an exact condition

Several promises hold only under a condition the code does not check. Each is proved in both directions.

- The cached block layer refines plain devices over every run exactly when cache keys name media one to one:
  descriptors that can share entries share a medium, and descriptors of one medium share their key
  (`BlockCache.RefinesExactlyWhenDisciplined`). The key leaves out the hardware partition (`include/blk.h:52`), so two
  descriptors that differ only in that are a case where it fails.
- A section word decodes as intended exactly when the attribute's own bits 31:20 lie inside the section frame
  (`PageTable.WordDecodes`).
- With installed and unmasked vectors below 160, dispatch stays inside `isr_table` over every run exactly when no
  interrupt from 160 to 511 is enabled to begin with; `gic_init` does not disable any
  (`Dispatch.SafeExactlyWithoutStray`).
- A display update never copies to the buffer on screen exactly when a vertical sync falls between any two updates
  (`Lcd.TearFreeExactlyWhenPaced`); the two buffers are disjoint and inside the uncached window exactly when the
  pixels fit 0x400000 bytes (`Lcd.BuffersFitExactly`).
- Between commands, the error count of the SD driver equals the failures since the last success or reset exactly
  when no lost reset shows: since the last success, the latest reset did not fall into an unfinished `err++`
  (`TfCard.CountsExactlyUnlessLostShows`). A lost reset makes the monitor tear a card down again with no failure
  since (`TfCard.LostResetTearsDownAgain`), but never with fewer than eleven failures in a row. Since
  `sunxi_mmc_send_cmd` answers command 12 by itself, traffic whose requests all carry it as their stop command never
  starts a tear-down, however often it fails (`TfCard.StopsPreventTearDown`), on a controller that has not failed
  fatally: after a failed clock set-up command 12 fails as well.
- Over runs of configuration requests and commands, the SD controller agrees with the cached clock and width whatever
  its resets leave exactly when the latest request that changed the clock carried one, it could be set and both clock
  updates completed, the latest request asked for 1, 4 or 8 lanes, and no command has failed on the bus since the clock
  was changed (`TfCard.AlwaysAgreesExactly`); `TfCard.AgreesExactly` says the same of each outcome of the resets. A
  failed command resets the controller, which the cache hides: repeating the request restores nothing
  (`TfCard.RepeatsRestoreNothing`), and a request for another width restores the width and not the clock
  (`TfCard.WidthRequestRestoresWidth`).
- A clock can be set exactly from 187.5 kHz up to 24 MHz, and above while PLL6 is at most 128 times the rate
  (`SdHost.SettableExactly`). After a failed clock set-up every command fails, whatever is asked for
  (`TfCard.FailedClockSticks`), until exactly a request with another clock, 0 or one that can be set
  (`TfCard.AnotherClockRecovers`).
- A packet leaves intact, with only its own buffer and descriptor changed, exactly when it fits the 2048 bytes of a
  descriptor's buffer (`EmacTx.IntactExactlyWhenItFits`), which the code does not check. Nor does it check whether a
  descriptor is still in use: of the packets sent while the DMA engine makes no progress all are kept exactly up to
  32 (`EmacTx.KeepsAllExactlyUpTo32`).
- A received frame reaches its chain exactly when its length is from 64 to 2044 and memory was found
  (`EmacRx.DeliversExactly`); the chain of a shorter one is filled from address 0. Over every run, with frames coming
  in and the rings initialized again at any point of a poll, the ring is a first-in first-out queue exactly when since
  they were last initialized no poll begun before that has ended, with memory found, before a frame came in
  (`EmacRx.FifoExactlyUnlessTorn`); otherwise driver and engine stay one descriptor apart. Reception stops, until the
  PHY thread initializes the rings again, exactly when the frame at the head has length 0 or more than 2044, and with
  a poll open that spans such an initialization the one after it as well (`EmacRx.StopsExactlyWhenBlocked`).
- `for_each_cpu` is defined exactly when its count is below the number of set bits: it searches for one CPU more
  than it visits (`CpuMask.ForEachCpu`).
- `gic_init` clears every pending bit that software can clear, and the group bits up to interrupt 255
  (`Gic.GicDevice.Init`); a
  masked or unmasked interrupt follows the latest call where its enable and target bits can be written
  (`Interrupts.LatestCallDecides`).

Where the code and its comments disagree the model follows the code. `gic_set_irq_security` sets the group bit for
"secure" (`cpu/gic.c:100-107`), while section 4.3.4 of the ARM GIC Architecture Specification v2 makes a clear bit
Group 0, the secure group, as the comments in `gic_init` do. So `enable_interrupt`, said to make an interrupt
non-secure (`cpu/interrupt.c:32`), clears the bit, and the lemmas speak of the bit. `gic_init` says that it sets all
interrupts to secure (`cpu/gic.c:215-219`), but reaches only the first 256.

## Model

| member | source | states |
|---|---|---|
| BlockCache.BlockLayer.CacheRead | include/blk.h:93-107 | a hit fills the buffer from one entry filed under the device's key that covers the request; anything else is a miss |
| BlockCache.BlockLayer.DriverRead | include/blk.h:73-76 | the driver's read leaves its reply in the first blocks of the buffer and nothing beyond |
| BlockCache.BlockLayer.CacheFill | include/blk.h:109-123 | the cache may keep the offered blocks and may evict any entries to do so |
| BlockCache.BlockLayer.Invalidate | include/blk.h:125-132 | nothing filed under the device's key is left, and everything else is |
| BlockCache.BlockLayer.DriverChange | include/blk.h:77-83 | a write or erase changes one medium and leaves the cache alone |
| BlockCache.BlockLayer.Dread | include/blk.h:375-394 | a covering entry that answers gives the requested count and its own blocks, otherwise count and blocks are the driver's; a complete read leaves in the buffer exactly what the medium holds, hit or miss; the cache is filled after complete reads only; every state passed is coherent |
| BlockCache.BlockLayer.Dwrite | include/blk.h:396-401 | exactly the device's entries go, before the medium changes, and the count is the driver's; a complete write is on the medium; every state passed is coherent |
| BlockCache.BlockLayer.Derase | include/blk.h:403-408 | as for a write, with any contents left in the erased range |
| BlockCache.EveryStateCoherent | include/blk.h:375-408 | every cached entry equals the device's blocks in each intermediate state of each operation, failed writes and erases included |
| BlockCache.StepRefinesPlain | include/blk.h:375-408 | one operation of a coherent layer is one a plain device can make |
| BlockCache.CachedRefinesPlain | include/blk.h:375-408 | the observations of any run, with any hits, evictions and short transfers, are those of plain devices |
| BlockCache.CompleteDriversComplete | include/blk.h:379-393 | over every run an operation is complete whenever its driver call is |
| BlockCache.ReadAfterWrite | include/blk.h:396-401 | in any history of plain devices a complete read after a complete write returns what was written |
| BlockCache.ReadBeside | include/blk.h:396-408 | a write or erase, complete or not, leaves other media and the blocks it was not asked for |
| BlockCache.SharedEntriesBreak | include/blk.h:379-381 | two media filed under one key: a read returns the other medium's block |
| BlockCache.SplitKeysBreak | include/blk.h:396-401 | one medium filed under two keys: a read returns the block from before a write |
| BlockCache.RefinesExactlyWhenDisciplined | include/blk.h:375-408 | refinement over every run from an empty cache holds if and only if keys name media one to one |
| PageTable.MmuTable.SetMtt | cpu/mmu.c:158-172 | the loop writes exactly the sections of the range, never leaves the table, and writes nothing for an inverted range |
| PageTable.WordSplits | cpu/mmu.c:169 | the written word is the OR of the two address fields above the attribute's low 20 bits |
| PageTable.FrameIsTarget | cpu/mmu.c:165-169 | the frame written for a section sends each address to its offset from the start of the range, modulo 2^32 |
| PageTable.WordDecodes | cpu/mmu.c:169 | the word decodes to the intended section if and only if stray address bits of the attribute lie inside the frame |
| PageTable.StrayBitMisdirects | cpu/mmu.c:169 | a concrete attribute that sends 0x200000 to 0x300000 |
| PageTable.LastCallWins | cpu/mmu.c:158-172 | after any calls a section holds the word of the last call that covers it, or is untouched |
| PageTable.TranslatesByLastCall | cpu/mmu.c:158-172 | every address translates by the last call covering it, or as before |
| PageTable.InitMapsEverything | cpu/mmu.c:192-196 | after the four calls every 32-bit address maps to itself, with the exact piecewise memory type and fixed permissions |
| PageTable.MmuTable.Init | cpu/mmu.c:190-196 | the table built from any previous contents is the one of the four calls |
| Lcd.BuffersFitExactly | driver/drv_lcd.c:105-107 | the aligned size covers the pixels, and the buffers are disjoint and in the window if and only if the pixels fit |
| Lcd.PanelSizes | driver/drv_lcd.c:137-139 | the bytes of a panel at both depths; 768000 for 800 by 480 pixels of 16 bits |
| Lcd.LargePanelOverlaps | driver/drv_lcd.c:107-139 | a panel of 1280 by 1024 at 32 bits, which takes another board configuration: its buffers overlap and leave the window |
| Lcd.WindowIsUncached | cpu/mmu.c:192-196 | above the first megabyte the uncached normal memory is exactly the window of the frame buffers |
| Lcd.UpdateWritesUncached | driver/drv_lcd.c:57-61 | every byte an update changes is mapped to itself and uncached |
| Lcd.PacedState | driver/drv_lcd.c:57-61 | which buffer is indexed, queued and on screen in every paced run |
| Lcd.TearFreeExactlyWhenPaced | driver/drv_lcd.c:57-61 | no update copies to the buffer on screen if and only if syncs separate updates |
| Lcd.TwoUpdatesTear | driver/drv_lcd.c:57-61 | two updates without a sync: the second copies to the buffer on screen |
| Lcd.AtOnceIsPaced | uboot/sunxi_display.c:643-653 | an engine that takes the base address at once never tears |
| Lcd.ScreenShowsLatestFrame | driver/drv_lcd.c:57-61 | in every paced run the screen shows the frame as of the latest update taken, whatever is drawn meanwhile |
| Lcd.LcdFb.constructor | driver/drv_lcd.c:105-139 | buffers cleared, the first on screen, the size rounded up; with the frame below the window they are laid out as they should be if and only if the pixels fit |
| Lcd.LcdFb.Control | driver/drv_lcd.c:47-65 | only a rectangle update acts: it queues the other buffer with the frame's bytes; in a sound layout the buffer indexed before keeps its contents, and with paced updates that is the one on screen |
| Lcd.LcdFb.Vsync | uboot/sunxi_display.c:643-653 | the queued buffer is scanned out, and nothing else changes |
| Gic.GicDevice.Enable | cpu/gic.c:76-90 | both group enables follow the argument and no other control bit changes |
| Gic.GicDevice.SetIrqSecurity | cpu/gic.c:92-109 | the group bit of one interrupt becomes the argument, where it can be written; every other interrupt's stays |
| Gic.GicDevice.EnableIrq | cpu/gic.c:111-127 | one interrupt is enabled or disabled, where it can be; every other one stays |
| Gic.GicDevice.SetIrqPriority | cpu/gic.c:129-137 | one interrupt's priority becomes the low byte of the argument |
| Gic.GicDevice.SetCpuTarget | cpu/gic.c:139-158 | one CPU is added to or removed from one interrupt's targets, where that bit can be written |
| Gic.GicDevice.InitCpu | cpu/gic.c:228-239 | priority mask 0xff, binary point 7 and both interface enables, other control bits kept |
| Gic.GicDevice.Init | cpu/gic.c:201-226 | from any register state: quiet from the first write to the last of 45, all clearable pending bits and the group bits up to 255 cleared, both interfaces on, everything else kept |
| Interrupts.EnableInterrupt | cpu/interrupt.c:29-35 | priority, group, target and enable of one interrupt, and of no other |
| Interrupts.DisableInterrupt | cpu/interrupt.c:37-41 | enable and target of one interrupt, and of no other |
| Interrupts.LatestCallDecides | cpu/interrupt.c:64-76 | after any history of mask and unmask calls each interrupt is as the latest call on it left it, whatever shares its word |
| Dispatch.AckFields | cpu/trap.c:143-151 | the masks of the trap select bit 9 and the low nine bits |
| Dispatch.NoStrayRunsSafely | cpu/trap.c:151-161 | without stray enabled interrupts every index is inside the table |
| Dispatch.SafeExactlyWithoutStray | cpu/trap.c:140-161 | dispatch is inside the table over every run if and only if no interrupt from 160 to 511 is enabled to begin with |
| Dispatch.StrayIsUnsafe | cpu/trap.c:159-161 | one trap on such an interrupt indexes past the table |
| Dispatch.OpAgrees | cpu/interrupt.c:46-106 | each call keeps the table what the history says it is |
| Dispatch.StepAgrees | cpu/trap.c:132-174 | each trap, with any calls its handler makes, keeps table and protocol |
| Dispatch.EveryRunKeepsProtocol | cpu/trap.c:132-174 | over every run each acknowledge is ended once with the identical word after the handler, the handler is the latest installed, and each counter is its traps since |
| Dispatch.ProtocolIsStrict | cpu/trap.c:140-174 | after each history, which observations break the protocol: all but what it asks for next |
| Dispatch.BootAgrees | cpu/interrupt.c:23 | a zeroed table agrees with an empty history |
| Dispatch.InterruptSystem.Initialize | cpu/interrupt.c:46-58 | both interfaces on, priority mask and binary point set, clearable pending bits and group bits up to 255 cleared, the table emptied |
| Dispatch.TrapCounts | cpu/trap.c:151-159 | which acknowledge words count as a trap on a vector |
| Dispatch.InstallStarts | cpu/interrupt.c:92-101 | an installation starts its vector anew and no other |
| Dispatch.InterruptSystem.MaskVector | cpu/interrupt.c:64-67 | the interrupt's line is masked on CPU 0; no other line, the table and no control register changes |
| Dispatch.InterruptSystem.UnmaskVector | cpu/interrupt.c:73-76 | the interrupt's line is unmasked on CPU 0 with priority 0; no other line, the table and no control register changes |
| Dispatch.InterruptSystem.InstallHandler | cpu/interrupt.c:84-106 | returns the handler installed before; installs and clears the counter unless the handler is null or the vector too large |
| Dispatch.InterruptSystem.TrapIrq | cpu/trap.c:132-174 | one trap: acknowledge, count, call the installed handler if any, end with the same word; without handler calls only the one counter changes |
| TfCard.ErrCountsFailures | driver/drv_tf.c:119-130 | in every interleaving `err` is the failures since the last success or reset plus what lost resets brought back, as a 32-bit int |
| TfCard.LagShows | driver/drv_tf.c:119-130 | a reset leaves failures behind in `err` exactly when it fell into an open increment and no success came since |
| TfCard.CountsExactlyUnlessLostShows | driver/drv_tf.c:119-130 | `err` is the failures since the last success or reset if and only if no lost reset shows, in runs shorter than 2^32 steps |
| TfCard.TearDownNeedsElevenFailures | driver/drv_tf.c:180 | a tear-down needs eleven failures in a row, and all of them after the last reset if none was lost |
| TfCard.LostResetTearsDownAgain | driver/drv_tf.c:122-190 | for each number of failures from eleven on, an interleaving in which the monitor tears down again with no failure since its reset |
| TfCard.StopsPreventTearDown | uboot/sunxi_mmc.c:329-330 | while every second command is a stop command that succeeds, no interleaving starts a tear-down |
| TfCard.RequestKeepsStops | driver/drv_tf.c:118-130 | a request with stop command 12 on a controller that has not failed fatally keeps the history of that kind |
| TfCard.MonitorInvariant | driver/drv_tf.c:160-194 | at the loop head status and plug agree; status is unplugged only after a tear-down since the latest mount |
| TfCard.MountsAreSeparated | driver/drv_tf.c:169-235 | between two mount attempts, the one at boot included, a tear-down's rescan did not report a card |
| TfCard.PluggedWithoutCardWaits | driver/drv_tf.c:169-180 | with status plugged and no card attached the monitor never probes or mounts again by itself |
| SdHost.StepsAtMost | uboot/sunxi_mmc.c:118-122 | the halvings of a divider stay within k exactly up to 16 times 2^k |
| SdHost.SettableExactly | uboot/sunxi_mmc.c:97-128 | which rates the module clock can be set to |
| SdHost.RateIsNotExceeded | uboot/sunxi_mmc.c:101-122 | the register selects PLL6 exactly above 24 MHz, and source over dividers, read from the register, is as close to the rate asked for as can be without exceeding it |
| SdHost.FiftyMegahertz | uboot/sunxi_mmc.c:101-153 | 50 MHz from 600 MHz: PLL6 divided by 12 |
| SdHost.AdvertisedRatesAreSettable | driver/drv_tf.c:219-220 | every rate of the advertised range can be set |
| SdHost.HundredKilohertzFails | uboot/sunxi_mmc.c:124-128 | a concrete rate that needs n = 4 |
| SdHost.SunxiMmc.SetModClk | uboot/sunxi_mmc.c:97-165 | the loop finds source and dividers, and writes them exactly when the rate can be set |
| SdHost.SunxiMmc.ConfigureClock | uboot/sunxi_mmc.c:211-236 | the clock-enable bit, the divider, the module clock and the result, for each point of failure |
| SdHost.SunxiMmc.SetIoSettings | uboot/sunxi_mmc.c:238-255 | a failed clock sets the fatal flag and keeps the width; an unsupported width writes nothing |
| SdHost.SunxiMmc.Send | uboot/sunxi_mmc.c:317-433 | after a failed clock -1, otherwise command 12 gives 0 and any other what the bus makes of it; a failure there resets the controller, and nothing else changes it |
| TfCard.StateAfterCalls | driver/drv_tf.c:136-153 | after any requests and commands: cache, fatal flag and module clock as the latest powered-on request and the latest change of the clock decide; clock enable, divider and width as the latest failed command and the requests since decide |
| TfCard.AgreesExactly | uboot/sunxi_mmc.c:424-427 | for each outcome of the resets, cache and controller agree if and only if that change could be set up, the latest width is supported, and the latest failed command since has left what is cached or a request has set it since |
| TfCard.AlwaysAgreesExactly | uboot/sunxi_mmc.c:424-427 | they agree whatever the resets leave if and only if the requests suffice and no command has failed since the clock was changed |
| TfCard.RepeatsRestoreNothing | driver/drv_tf.c:141-152 | requests that repeat the cached clock and width change nothing in any state |
| TfCard.WidthRequestRestoresWidth | driver/drv_tf.c:148-151 | a request for another width sets a supported width and leaves the clock as it is |
| TfCard.StoppedClockStays | uboot/sunxi_mmc.c:211-236 | without another clock no calls start a stopped clock again, unless a reset does |
| TfCard.FailedCommandDisagrees | uboot/sunxi_mmc.c:424-427 | 400 kHz and four lanes, then one failed command: the clock is stopped and one lane left, the cache hides both, and repeating the request does nothing |
| TfCard.FailedClockSticks | uboot/sunxi_mmc.c:243-246 | after a failed clock, requests that keep it and commands change nothing but the width, and every command fails |
| TfCard.AnotherClockRecovers | uboot/sunxi_mmc.c:257-265 | commands are taken again if and only if a request carries another clock, 0 or one that can be set up |
| TfCard.ClockZeroDisagrees | driver/drv_tf.c:142-146 | 400 kHz and then clock 0: the controller keeps running at the first |
| TfCard.LowClockDisagrees | driver/drv_tf.c:142-146 | 100 kHz with four lanes: both cached, neither programmed, commands refused |
| TfCard.TwoLanesDisagree | uboot/sunxi_mmc.c:248-254 | a width of two lanes: cached and not programmed |
| TfCard.MmcMci.constructor | driver/drv_tf.c:225-235 | the state the monitor starts from, with one mount if a card was reported |
| TfCard.MmcMci.Count | driver/drv_tf.c:118-122 | a zero result clears `err`, any other adds one, and the history says which |
| TfCard.SentCounts | driver/drv_tf.c:119-122 | a nonzero result is one more failure in a row and since the reset, a zero ends both |
| TfCard.ElevenFailuresTearDown | driver/drv_tf.c:110-190 | eleven failing commands and one pass of the monitor tear the card down, fewer do not |
| TfCard.FirstPassProbes | driver/drv_tf.c:165-179 | booted without a card, the first pass probes, and mounts exactly if a card is reported |
| TfCard.MmcMci.Request | driver/drv_tf.c:110-132 | the command and then the stop command, if there is one, each with the controller's answer and what its failure leaves of the controller |
| TfCard.MmcMci.Rescan | driver/drv_tf.c:170-183 | the rescan both branches share |
| TfCard.MmcMci.MonitorPass | driver/drv_tf.c:167-194 | one pass of the loop follows the two guards and mounts only when a probe finds a card |
| TfCard.MmcMci.SetIocfg | driver/drv_tf.c:136-153 | the fields and the controller follow the specification function of the lemmas above |
| EmacTx.WordDecodes | driver/drv_emac.c:122 | what the packed word of offset and flag says, for any offset |
| EmacTx.FlagsAbove | uboot/sun8i_emac.c:505-519 | the four flag bits leave the length below them readable |
| EmacTx.SegmentPlaced | uboot/sun8i_emac.c:489-528 | where the bytes of a segment go, and descriptor and index after the last one |
| EmacTx.SendsAsOne | uboot/sun8i_emac.c:484-528 | the segments of any chain whose last starts below 2^16 are sent as the concatenated frame would be |
| EmacTx.NeverSent | uboot/sun8i_emac.c:489-493 | a packet whose last segment starts later never reaches a descriptor |
| EmacTx.IntactExactlyWhenItFits | uboot/sun8i_emac.c:484-528 | buffer, descriptor, index and all other memory are as they should be, whatever was there, if and only if the frame fits 2048 bytes |
| EmacTx.LongFrameOverruns | uboot/sun8i_emac.c:509 | 4096 bytes fill the next buffer as well, and on the last descriptor the memory after them |
| EmacTx.RingHoldsLatest | uboot/sun8i_emac.c:525-528 | in every run of fitting packets the latest 32 are each in their own slot |
| EmacTx.KeepsAllExactlyUpTo32 | uboot/sun8i_emac.c:484-528 | all packets sent are kept if and only if there are at most 32 |
| EmacTx.TxRing.InitDescs | uboot/sun8i_emac.c:346-372 | every descriptor empty, the first one current |
| EmacTx.TxRing.EthSend | uboot/sun8i_emac.c:484-528 | one segment, for any word |
| EmacTx.TxRing.Transmit | driver/drv_emac.c:107-147 | the loop sends the pieces of the chain; a packet that fits leaves intact |
| EmacRx.StatusDecodes | uboot/sun8i_emac.c:456-457 | ownership bit and length field of any status word |
| EmacRx.DeliversExactly | driver/drv_emac.c:158-179 | the chain holds the received frame, whatever lies at address 0, if and only if its length is from 64 to 2044 and memory was found |
| EmacRx.MovesOnExactly | uboot/sun8i_emac.c:456-482 | the ring advances, giving the descriptor back, if and only if the length is from 1 to 2044 and memory was found; otherwise nothing changes |
| EmacRx.RuntDeliversLowMemory | uboot/sun8i_emac.c:459-462 | a frame of 16 bytes delivers the 16 bytes at address 0 |
| EmacRx.AcceptsExactlyWithRoom | uboot/sun8i_emac.c:456 | a frame that comes in is stored if and only if fewer than 32 wait |
| EmacRx.TwoStepsArePoll | driver/drv_emac.c:158-196 | the two steps of a poll, without interference, are the whole of it |
| EmacRx.FifoExactlyUnlessTorn | driver/drv_emac.c:152-203 | over every run of arrivals, steps of polls and restarts the ring is a queue, and each delivery answers the arrival in its place, if and only if no poll that spans the latest restart has been released before a frame came in |
| EmacRx.StalePollLosesFrame | uboot/sun8i_emac.c:575-595 | a poll that spans a restart gives back, unread, the first frame since, and keeps the queue |
| EmacRx.TornPollSkipsFrame | uboot/sun8i_emac.c:588-592 | released before a frame came in, it leaves the driver ahead: of the next two frames the second is delivered |
| EmacRx.StopsExactlyWhenBlocked | uboot/sun8i_emac.c:470-476 | in every state of a queue nothing more is delivered before a restart if and only if the head has length 0 or more than 2044, and with a poll open that spans a restart the next one too |
| EmacRx.RestartFrees | uboot/sun8i_emac.c:319-344 | initializing the rings again makes an empty queue of any state, and leaves an open poll open |
| EmacRx.RxRing.EthRecv | uboot/sun8i_emac.c:437-482 | the result and whether the frame pointer is set |
| EmacRx.RxRing.FreePacket | uboot/sun8i_emac.c:575-595 | the descriptor goes back to the engine, the ring moves on, no buffer changes |
| EmacRx.RxRing.Receive | driver/drv_emac.c:152-203 | one poll: the new ring state, and a chain that holds exactly the bytes delivered |
| EmacRx.Scatter | driver/drv_emac.c:174-177 | each pbuf gets its piece of the frame and keeps it |
| Pbufs.CutLosesNothing | driver/drv_emac.c:174-177 | the pieces copied out of a frame are the frame |
| FdtCells.Swap32ReadsBig | include/compiler.h:70-113 | on either host the converted word is the big-endian value of its four bytes |
| FdtCells.Swap64ReadsBig | include/compiler.h:75-114 | the same for eight bytes |
| FdtCells.NextCell | include/fdt_support.h:255 | one shift and OR in 64 bits appends a cell modulo 2^64 |
| FdtCells.OfReadNumber | include/fdt_support.h:251-257 | any number of cells reads as their big-endian value modulo 2^64, exactly for up to two |
| FdtCells.UswapTwice | include/compiler.h:75-83 | swapping eight bytes twice is the identity |
| FdtCells.PropertyRoundTrip | include/libfdt.h:1296-1300 | eight bytes are what a host stores for a 64-bit property if and only if they are the value big-endian |
| FdtCells.PropertyU64 | include/libfdt.h:1296-1300 | the bytes stored are the value big-endian, on a host of either order |
| FdtCells.StoreAndRead | include/fdt_support.h:251-257 | the value stored as a 64-bit property comes back from its two cells |
| AlignBuffer.PadSizeIsLeast | include/memalign.h:70-71 | the padded size is the least multiple of the pad that holds the request |
| AlignBuffer.RoundIsLeast | include/common.h:877 | for a power of two the mask form is the least multiple |
| AlignBuffer.BufferHolds | include/memalign.h:72-76 | the pointer is the first aligned address, and the padded region rounded to the alignment lies inside the array, wherever it starts |
| AlignBuffer.NoByteToSpare | include/memalign.h:73-74 | some start uses the declared array to its last byte |
| CpuMask.CpumaskNext | include/common.h:553-559 | the least set bit above the argument, exactly when there is one |
| CpuMask.ForEachCpu | include/common.h:561-564 | the smallest CPUs of the mask in ascending order; defined if and only if the count is below the number of set bits |

## Left out

- Block cache: the CONFIG_BLK branch, statistics and configuration; descriptors that address one medium in blocks of different sizes; block numbers that wrap around; calls from several threads at once.
- The disabled-cache stubs: they are the environment in which no entry ever answers and none is kept.
- PageTable: cache, TLB and domain-register operations; the printing of the page-table dump, whose access-permission field mixes other bits in; second-level tables.
- PageTable.InitMapsEverything: speaks of the descriptor fields only; with all domains set to manager the processor checks neither permissions nor the execute-never bit.
- Gic: software-generated interrupts (gic_send_sgi), priority bits an implementation leaves out, and level-sensitive inputs that pend again at once.
- Dispatch: preemption of a running handler by a second interrupt, the nesting counters and context switch around the trap, and the handler names.
- Dispatch.InterruptSystem.MaskVector: vectors of 1020 and more, for which the code writes past the target bytes, and negative ones.
- Dispatch.InterruptSystem.UnmaskVector: vectors of 1020 and more, for which the code writes past the priority and target bytes, and negative ones.
- Dispatch.InterruptSystem.InstallHandler: negative vectors, which pass the code's only bound check (cpu/interrupt.c:89) and index before the table.
- SdHost: the delays of the clock phases, the register polling of clock updates and commands, data transfer, pin and power set-up; a clock above the range of an int. A reset may leave any enable bit, divider and width.
- TfCard: the conversion of requests to commands and the copying of responses; the early returns of rt_hw_tf_init, after which no monitor runs.
- TfCard.MmcMci.MonitorPass: one pass without interference; interference is the subject of the lemmas about runs, in which the monitor evaluates its two guards in one step.
- EmacTx: progress of the DMA engine, which nothing in the transmit path reads; the driver's own fields behind the last buffer, which a packet that does not fit may overwrite; a running offset beyond the range of an int; cache maintenance.
- EmacRx.FifoExactlyUnlessTorn: a restart is one step, and so is the end of a poll with its copy and its release; what a poll that spans a restart delivers is not recorded.
- EmacRx.RxRing.Receive: one poll without interference; interference is the subject of the lemmas about runs.
- EmacRx: the engine is taken to store no more than the 2044 bytes it is configured for, and pbuf_alloc to return a chain of the length it is asked for, or nothing; cache maintenance.
- Ethernet: what makes the PHY thread initialize the rings again, MDIO, and device initialization and control.
- Lcd: the touch thread and device information; a pixel count that overflows an int; a failed allocation of the frame buffer.
- FdtCells: the 16-bit and little-endian macros, which are simpler instances; a negative cell count.
- AlignBuffer: sizes and addresses that wrap around the address space; a request of no bytes.
- CpuMask: the sign of the shifted constant at bit 31.
- UART, I2C, SPI, GPIO, PWM, RTC and watchdog drivers, LED patterns, configuration tables and console output.
