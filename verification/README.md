# Verified model of the acquisition stack

This project models the parts of the data-acquisition stack whose correctness is not
visible from one process or one function: the dual-clock FIFO, the trigger core and the
program that decodes its words, the averaging scope and its readout, the histogram, the
DMA writer and the server that reads its ring, the bitstream driver, and the GPS parser.

Each piece of hardware is a record of its registers with a `Step` function for one clock
edge; a run is any sequence of inputs, and the theorems are about every run. Beside the
`Step` of each core stands a class that updates the same registers, arrays and RAMs in
place, in the shape of the source, and is proved to do exactly that step; what only joins
cores together (`ScopeReadout` with its edge detector, `Acquisition`) has none. The C and
Python code is
modelled the same way: a function gives the meaning, a method with the source's loop is
proved against it. No theorem bounds the length of a run.

| file | models |
|---|---|
| `Arith.dfy` | powers of two, division and remainder facts |
| `GrayCode.dfy` | Gray pointers at every width: decode, increment, flags, addresses |
| `AsyncFifo.dfy` | the dual-clock FIFO under every interleaving of the two clocks |
| `Histogram.dfy` | the histogram core and its RAM |
| `AveragingScope.dfy`, `BramReader.dfy`, `ScopeReadout.dfy` | the 16-bit averager, its narrow copy, the readout, and both on their own clocks |
| `RamWriter.dfy`, `PingPong.dfy`, `Acquisition.dfy` | the AXI burst writer, the polling server, and both together |
| `Bitstream.dfy` | the driver's write path and `flip32` |
| `TriggerChannel.dfy`, `TriggerCore.dfy`, `TriggerFrame.dfy` | one trigger channel; both channels, status words and framing; frames as the sink gets them |
| `TriggerHistory.dfy` | what those frames say about the samples, crossings, ticks and metadata that came in |
| `WordCodec.dfy`, `CounterDelivery.dfy` | the 32-bit words and their decoder; counters from core to program |
| `NmeaFraming.dfy`, `TinyGps.dfy`, `GpsReport.dfy` | the parser's framing and checksum; its fields and numbers; position reports as values |

## What the code does that its comments or users may not expect

- The FIFO clocks each pointer's two synchroniser stages with that pointer's own clock
  (`fifo_async_ctrl.vhd:59-79`), not with the clock that reads the copy. Order and
  no-loss hold for this wiring as well; it is what is modelled.
- The header search in the bitstream driver stops one byte short, so a sync word in the
  last four bytes of the first write is not found (`HeaderFoundIff`, `TrailingSyncIsMissed`).
- A failed DMA transfer has already replaced the held-back bytes; repeating the write,
  the first or a later one, is exact only under the condition of `RetryAfterFailure`
  (a first write of one byte already fails it: `RetryOfOneByte`).
- A one-word readout overruns (`ExactFromTwoWords`, `OneWordOverruns`), and the `tlast` cycle does not
  wait for the sink (`CompleteIffReadyAtLast`).
- A pending burst address moves if the memory takes data first (`PendingAddressIsStable`).
- The averages register is compared after subtracting one in 16 bits: zero asks for
  65536 rounds.
- A zero scaler makes the trigger tick in every cycle until the first crossing; then it
  stops until the 32-bit count has come round (`ZeroScalerTicks`, `ScalerMustBePositive`).
- Stalls harm trigger frames in three ways: in the first cycle the sink is sent the
  previous word again (`StallResendsOldWord`), inside the samples their count starts
  again (`DisturbedFrame`), and while the counter is on offer it is dropped
  (`DroppedCounter`). Stalls in the two trailer states do no harm. `FrameContents` is the
  exact condition for a whole frame, `CountersArrive` for the counters of a run.
- A pulse per second does not clear the rate of a channel that ticks in that very cycle
  (`RateSincePulse`).
- The checksum test reads two bytes of the term buffer even when the checksum term is
  shorter. With one digit it reads NUL as the second; with none it reads NUL and a byte
  left over from an earlier term, so a sentence such as `$GPRMC,A,AA*` is reported without
  any checksum digit (`ReportedWithoutDigits`, `NoDigits`). `ReportsExactly` says when a
  character reports, and `ComparedIsReceived` when the test reads what was received.
- An empty term leaves the pending field of an earlier sentence in place, and neither '$'
  nor a failed checksum clears pending fields. So a valid sentence with an empty term
  publishes a value it does not bring, possibly one whose checksum failed
  (`UnverifiedTime`); an empty latitude before 'S' turns the sign of the old one
  (`EmptyLatitudeFlips`). `RmcRoundTrip` and `GgaRoundTrip` say what is published in every
  case, `RmcStandsAlone` and `GgaStandsAlone` when it depends on the sentence alone.
- The combined key of sentence type and term number tells terms apart only below 32: from
  term 32 on they are taken for the terms of a GPRMC again (`CombineInjective`,
  `CombineAliases`). The round trips are for sentences of at most 32 terms.
- A readout requested while a restart is still on its way from the previous one races with
  the clearing of the RAM (`RequestIff`, `RaceHappens`), and the restart is missed when no scope clock edge
  falls while the reader is finished (`RestartSeen`).
- The all-ones marker word is reported by the acquisition program as unknown.
- `gpsstrcmp` accepts any prefix of a sentence name, the empty term included.

## Model

| member | source | states |
|---|---|---|
| `GrayCode.DecodeInvertsEncode` | cores/axis_fifo_v1_0/fifo_write.vhd:42-44 | the xor-chain decode undoes the Gray encode at every width |
| `GrayCode.EncodeInvertsDecode` | cores/axis_fifo_v1_0/fifo_write.vhd:42-44 | and the encode undoes the decode |
| `GrayCode.XorChainUnique` | cores/axis_fifo_v1_0/fifo_write.vhd:42 | the self-referring equation for `bin` has exactly one solution, the decoded pointer |
| `GrayCode.OneBitChanges` | cores/axis_fifo_v1_0/fifo_write.vhd:42-47 | consecutive pointers differ in exactly one bit, the wrap included |
| `GrayCode.PointerSuccessor` | cores/axis_fifo_v1_0/fifo_read.vhd:42-48 | decode, add one, encode takes the pointer of a count to that of the next count |
| `GrayCode.FullMeansHalfTurn` | cores/axis_fifo_v1_0/fifo_write.vhd:52-56 | the full flag holds iff the counters differ by 2^N modulo 2^(N+1) |
| `GrayCode.EmptyMeansEqual` | cores/axis_fifo_v1_0/fifo_read.vhd:52-57 | the empty flag holds iff the counters are equal modulo 2^(N+1) |
| `GrayCode.AddressIsGray` | cores/axis_fifo_v1_0/fifo_write.vhd:49-50 | the N-bit address is the Gray code of the low N bits of the count |
| `GrayCode.SlotsCoincide` | cores/axis_fifo_v1_0/fifo_write.vhd:49-58 | two counts use the same RAM slot iff they are congruent modulo 2^N |
| `GrayCode.EverySlotIsUsed` | cores/axis_fifo_v1_0/fifo_read.vhd:50-59 | every slot is the address of some count below 2^N |
| `AsyncFifo.FullIsExact` | cores/axis_fifo_v1_0/fifo_write.vhd:52-60 | on the delayed read pointer, full means exactly 2^N words beyond it |
| `AsyncFifo.EmptyIsExact` | cores/axis_fifo_v1_0/fifo_read.vhd:52-61 | on the delayed write pointer, empty means exactly level with it |
| `AsyncFifo.WriteKeepsUnread` | cores/axis_fifo_v1_0/dp_bram.vhd:34-44 | a write less than a turn ahead of the reader disturbs no unread word |
| `AsyncFifo.BothStep` | cores/axis_fifo_v1_0/dp_bram.vhd:34-57 | coinciding edges of both clocks keep the invariant, whichever value the read port sees |
| `AsyncFifo.RunInv` | cores/axis_fifo_v1_0/fifo_async_ctrl.vhd:31-79 | the invariant of registers, RAM, words stored and words captured over every interleaving |
| `AsyncFifo.FifoOrder` | cores/axis_fifo_v1_0/axis_fifo.vhd:65-122 | from joint reset, words captured are a prefix of words stored and at most 2^N are in flight |
| `AsyncFifo.PointerChain` | cores/axis_fifo_v1_0/n_sync.vhd:22-39 | r_sync <= r <= w_sync <= w <= r_sync + 2^N in every reachable state, with the middle stages between, and w, r are the true counts |
| `AsyncFifo.UnreadWordsSurvive` | cores/axis_fifo_v1_0/dp_bram.vhd:34-57 | every stored and uncaptured word is still in its slot |
| `AsyncFifo.Drains` | cores/axis_fifo_v1_0/axis_fifo.vhd:81-82 | after any run two idle write edges and enough ready read edges deliver every stored word |
| `AsyncFifo.FillsToCapacity` | cores/axis_fifo_v1_0/axis_fifo.vhd:65-66 | after any run two idle read edges let exactly the free slots be filled, then no more |
| `AsyncFifo.AcceptsExactly` | cores/axis_fifo_v1_0/axis_fifo.vhd:65-66 | in every run a valid word is stored iff fewer than 2^N words are stored beyond those read two read edges ago |
| `AsyncFifo.DeliversExactly` | cores/axis_fifo_v1_0/axis_fifo.vhd:81-82 | in every run a ready sink is given a word iff one is left of those stored two write edges ago |
| `AsyncFifo.Log2c` | cores/axis_fifo_v1_0/axis_fifo.vhd:30-40 | the loop finds the least width whose RAM holds the requested depth |
| `AsyncFifo.AxisFifo.OnWriteEdge` | cores/axis_fifo_v1_0/axis_fifo.vhd:66-112 | the in-place write edge is the model's write step and reports `we_s` |
| `AsyncFifo.AxisFifo.OnReadEdge` | cores/axis_fifo_v1_0/axis_fifo.vhd:82-122 | the in-place read edge is the model's read step and reports `rd_s` |
| `Histogram.WriteBack` | cores/axis_histogram_v1_0/axis_histogram.vhd:113-120 | writing back the incremented or saturated count restores agreement with the samples |
| `Histogram.RunInv` | cores/axis_histogram_v1_0/axis_histogram.vhd:83-122 | the clear pass and the read, increment, write cycle keep the invariant over every run |
| `Histogram.HistogramAgrees` | cores/axis_histogram_v1_0/axis_histogram.vhd:80-121 | whenever the core is ready, each bin is the smaller of its sample count (as a multiset) and all ones |
| `Histogram.WordsAreSamples` | cores/axis_histogram_v1_0/axis_histogram.vhd:56-57 | a bin is sampled as often as a word whose low address bits name it is taken |
| `Histogram.CountsWords` | cores/axis_histogram_v1_0/axis_histogram.vhd:56-121 | of the stream itself: in every ready cycle a bin holds the number of words taken that name it, saturated at all ones |
| `Histogram.ClearPass` | cores/axis_histogram_v1_0/axis_histogram.vhd:93-104 | the clear pass takes one cycle per bin plus one and takes no sample |
| `Histogram.FourCyclesPerSample` | cores/axis_histogram_v1_0/axis_histogram.vhd:105-120 | after a sample the core is ready again exactly four edges later |
| `Histogram.Core.Tick` | cores/axis_histogram_v1_0/axis_histogram.vhd:56-122 | the in-place edge with its RAM of read latency two is the model's step |
| `RamWriter.RingsAreGood` | cores/axis_ram_writer_v1_0/axis_ram_writer.vhd:68-81 | every ring of at least 2^4 words is a whole number of bursts |
| `RamWriter.RunInv` | cores/axis_ram_writer_v1_0/axis_ram_writer.vhd:131-144 | control, queue, beat, counter, burst and base-address invariants over every promised run |
| `RamWriter.WordsLandInOrder` | cores/axis_ram_writer_v1_0/axis_ram_writer.vhd:140-159 | beat k carries stream word k to cfg + 8*(k mod 2^ADDR_WIDTH), and what is not yet written is exactly what is queued |
| `RamWriter.BurstsOfSixteen` | cores/axis_ram_writer_v1_0/axis_ram_writer.vhd:131-158 | burst b starts at word 16b under its ID, has sixteen beats under that ID, `wlast` on the sixteenth only |
| `RamWriter.NeverReadsEmpty` | cores/axis_ram_writer_v1_0/axis_ram_writer.vhd:82-105 | the FIFO is never popped when empty |
| `RamWriter.PendingAddressIsStable` | cores/axis_ram_writer_v1_0/axis_ram_writer.vhd:131-149 | a pending address stays valid with its ID, and keeps its value iff no data beat is taken before it (section A3.2.1 of ARM IHI 0022) |
| `RamWriter.PendingDataIsStable` | cores/axis_ram_writer_v1_0/axis_ram_writer.vhd:136-159 | a beat not taken is offered again with the same data, ID and `wlast` |
| `RamWriter.BurstsStayInPage` | cores/axis_ram_writer_v1_0/axis_ram_writer.vhd:149-152 | on a 128-byte aligned ring no burst crosses a 4 KB page (section A3.4.1 of ARM IHI 0022) |
| `RamWriter.RingContents` | cores/axis_ram_writer_v1_0/axis_ram_writer.vhd:140-149 | each of the last 2^ADDR_WIDTH words written is in memory at its ring position |
| `RamWriter.CatchesUp` | cores/axis_ram_writer_v1_0/axis_ram_writer.vhd:131-141 | progress: from any reachable state, whatever arrives meanwhile, however the memory stalls, it holds all but sixteen of the words taken after one ready cycle per queued word |
| `RamWriter.OffersWithoutWaiting` | cores/axis_ram_writer_v1_0/axis_ram_writer.vhd:131-138 | an idle writer offers an address and its data exactly when enough words are queued, whatever the ready lines say (section A3.2.1 of ARM IHI 0022) |
| `RamWriter.TakenAreAccepted` | cores/axis_ram_writer_v1_0/axis_ram_writer.vhd:80-83 | the stream taken is exactly the words valid on the bus while the FIFO is not full |
| `RamWriter.AxisRamWriter.Tick` | cores/axis_ram_writer_v1_0/axis_ram_writer.vhd:80-144 | the in-place edge is the model's step |
| `PingPong.ReadyIsExact` | projects/adc_test/server/adc-test-server.c:138-140 | the poll fires iff the next block is complete, one word later for first halves |
| `PingPong.StepInv` | projects/adc_test/server/adc-test-server.c:132-150 | one pass keeps S blocks sent and S*32K <= W <= (S+1)*32K + 16K |
| `PingPong.Delivery` | projects/adc_test/server/adc-test-server.c:132-150 | at 16K words per pass, everything sent is the stream from its start in whole blocks |
| `PingPong.PaceIsExact` | projects/adc_test/server/adc-test-server.c:132-150 | delivery holds for every schedule at a pace iff the pace is at most 16K words |
| `PingPong.OverrunTears` | projects/adc_test/server/adc-test-server.c:138-144 | one word more per pass and a block is overwritten while it is sent |
| `PingPong.Serve` | projects/adc_test/server/adc-test-server.c:130-150 | the polling loop computes the model's run and delivers the stream when paced |
| `Acquisition.FetchIsRingWord` | cores/axis_ram_writer_v1_0/axis_ram_writer.vhd:140-149 | a ring slot read from the memory the writer fills is the newest word for that slot, or the old contents |
| `Acquisition.HardwareIsRing` | cores/axis_ram_writer_v1_0/axis_ram_writer.vhd:140-149 | over every promised run the writer's memory and address register are, at every edge, a ring of the stream words landed so far |
| `Acquisition.Refines` | projects/adc_test/server/adc-test-server.c:132-150 | the server reading such a memory behaves as the polling loop over an abstract ring |
| `Acquisition.ServerDelivers` | projects/adc_test/server/adc-test-server.c:126-150 | writer and server together: over every promised hardware run and every timing of polls and reads with at most 16K words per pass, what is sent is a prefix of the stream the writer took, in whole blocks, at most a block and a pass behind the memory |
| `Bitstream.FlippedTwice` | scripts/fpga-bit-to-bin.py:9-16 | `flip32` is an involution |
| `Bitstream.Flip32` | scripts/fpga-bit-to-bin.py:9-16 | the loop fails iff the data is not whole words, and otherwise reverses each word |
| `Bitstream.HeaderFoundIff` | patches/xilinx_devcfg.c:331-346 | a header is removed iff a sync word, in either byte order, is followed by at least one byte |
| `Bitstream.LaterWriteAppends` | patches/xilinx_devcfg.c:311-363 | a later write appends its bytes to the payload and keeps the byte order |
| `Bitstream.FirstWriteStrips` | patches/xilinx_devcfg.c:330-355 | the first write strips the header and settles the byte order |
| `Bitstream.FirstSyncIsFound` | patches/xilinx_devcfg.c:331-342 | the header search finds the first sync word, and the order is swapped iff that reads AA 99 55 66 |
| `Bitstream.OrderOfTransfer` | patches/xilinx_devcfg.c:331-363 | from its first sync word on a file is transferred byte for byte if that reads 66 55 99 AA, and with every word turned round if it reads AA 99 55 66, whatever the later writes; 0 to 3 bytes are held back |
| `Bitstream.TransferStartsWithSync` | patches/xilinx_devcfg.c:331-363 | whenever the first write has a header the transfer starts with 66 55 99 AA, for either order and any later writes |
| `Bitstream.HeaderlessGoesAsGiven` | patches/xilinx_devcfg.c:330-363 | a first write without a sync word is transferred byte for byte from its start |
| `Bitstream.EmptyWriteIsNoOp` | patches/xilinx_devcfg.c:328-355 | an empty write after open changes nothing, so the first write with data is the one that matters |
| `Bitstream.ChunkingInvariance` | patches/xilinx_devcfg.c:311-422 | words transferred, un-swapped, followed by the 0 to 3 bytes held back are the header-stripped user data |
| `Bitstream.PayloadDetermines` | patches/xilinx_devcfg.c:352-363 | payload and byte order determine what was transferred and what is held back |
| `Bitstream.SplitDoesNotMatter` | patches/xilinx_devcfg.c:318-355 | two cuts of the same data after the same first write transfer the same words |
| `Bitstream.FlipCommutes` | patches/xilinx_devcfg.c:331-363 | a file and its flipped copy transfer the same words, however each is cut |
| `Bitstream.TrailingSyncIsMissed` | patches/xilinx_devcfg.c:333-349 | a sync word that ends the first write is missed and the header is sent |
| `Bitstream.RetryAfterFailure` | patches/xilinx_devcfg.c:330-363 | repeating a write after a failed transfer is exact iff the held-back bytes are as before, or it is a first write whose header search leaves the same bytes |
| `Bitstream.RetryOfFirstWrite` | patches/xilinx_devcfg.c:330-355 | for the first write after open: iff nothing was held back, or the header is found again behind what was |
| `Bitstream.RetryOfOneByte` | patches/xilinx_devcfg.c:352-355 | a failed first write of one byte, repeated, leaves the byte held back twice |
| `Bitstream.SwabWords` | patches/xilinx_devcfg.c:357-363 | the in-place loop turns every word round |
| `Bitstream.SearchHeader` | patches/xilinx_devcfg.c:331-344 | the search loop finds the first sync word it looks at, and its byte order |
| `Bitstream.Xdevcfg.StripHeader` | patches/xilinx_devcfg.c:330-350 | the in-place header removal leaves the data after the header and notes the byte order |
| `Bitstream.Xdevcfg.Prepare` | patches/xilinx_devcfg.c:352-363 | stragglers are saved and the whole words put in transfer order |
| `Bitstream.Xdevcfg.OnWrite` | patches/xilinx_devcfg.c:311-430 | one write, in each way it can end, is the model's write |
| `Bitstream.Xdevcfg.constructor` | patches/xilinx_devcfg.c:571-574 | opening clears the byte order and the held-back bytes |
| `AveragingScope.ExtendRound` | cores/axis_avgr16bits_v1_0/avg_scope.vhd:276-287 | writing back a word plus its samples keeps every partial sum modulo 2^16 |
| `AveragingScope.CloseRound` | cores/axis_avgr16bits_v1_0/avg_scope.vhd:288-299 | a complete round becomes one more term of every sum |
| `AveragingScope.RunInv` | cores/axis_avgr16bits_v1_0/avg_scope.vhd:245-318 | read port one ahead with `dob` = ram[addra] while measuring, clear RAM when idle, over every run |
| `AveragingScope.AveragesAreSums` | cores/axis_avgr16bits_v1_0/avg_scope.vhd:245-310 | at the finish each lane of each address holds the sum modulo 2^16 of its samples over exactly the requested rounds |
| `AveragingScope.RoundsAreTriggered` | cores/axis_avgr16bits_v1_0/avg_scope.vhd:245-304 | over every run the rounds recorded and the one under way are as many as the waiting cycles in which the trigger was high |
| `AveragingScope.UntriggeredWaits` | cores/axis_avgr16bits_v1_0/avg_scope.vhd:259-266 | without a trigger the scope waits for ever and both RAMs stay as they are |
| `AveragingScope.UnstartedStaysIdle` | cores/axis_avgr16bits_v1_0/avg_scope.vhd:245-257 | without a start it stays idle and keeps its RAM |
| `AveragingScope.FinishedWhenServed` | cores/axis_avgr16bits_v1_0/avg_scope.vhd:245-303 | for every pattern of triggers and valid words, a measurement is finished iff it has had rounds*(words + 2) cycles that serve it |
| `AveragingScope.SampleIsUpperBits` | cores/axis_avgr16bits_v1_0/avg_scope.vhd:283-287 | sixteen times a sample is its lane read as a signed number, less its low four bits |
| `AveragingScope.ExactUpToSixteen` | cores/axis_avgr16bits_v1_0/avg_scope.vhd:283-287 | the signed lane is the exact sum for all samples iff there are at most 16 rounds |
| `AveragingScope.IdleMeansClear` | cores/axis_avgr16bits_v1_0/avg_scope.vhd:305-318 | both RAMs are all zero in every idle state |
| `AveragingScope.FlattenUpdate` | cores/axis_avgr16bits_v1_0/asym_ram_sdp_write_wider.vhd:98-108 | writing a wide word is overwriting its slots of the narrow view |
| `AveragingScope.NarrowIsCopy` | cores/axis_avgr16bits_v1_0/asym_ram_sdp_write_wider.vhd:84-108 | narrow[a*RATIO+i] is lane i of wide[a] in every reachable state |
| `AveragingScope.MeasurementCompletes` | cores/axis_avgr16bits_v1_0/avg_scope.vhd:245-303 | with triggers and data at hand a measurement finishes after 1 + rounds*(words + 2) cycles |
| `AveragingScope.ZeroingRuns` | cores/axis_avgr16bits_v1_0/avg_scope.vhd:312-318 | the zeroing pass ends in idle after one cycle per word |
| `AveragingScope.ScopeCore.AddLanes` | cores/axis_avgr16bits_v1_0/avg_scope.vhd:283-287 | the lane loop adds each 12-bit sample to its lane |
| `AveragingScope.ScopeCore.WriteBoth` | cores/axis_avgr16bits_v1_0/asym_ram_sdp_write_wider.vhd:98-108 | the slot loop writes the word to both RAMs and nothing else |
| `AveragingScope.ScopeCore.Tick` | cores/axis_avgr16bits_v1_0/avg_scope.vhd:204-318 | the in-place edge over both RAMs is the model's step |
| `BramReader.RunInv` | cores/axis_avgr16bits_v1_0/bram_reader.vhd:84-135 | state, address and what was sent correspond in every run |
| `BramReader.PacketInOrder` | cores/axis_avgr16bits_v1_0/bram_reader.vhd:95-148 | under any stalls what was sent is a prefix of words 0..n-1 with `tlast` on the last only |
| `BramReader.StalledReadout` | cores/axis_avgr16bits_v1_0/bram_reader.vhd:95-127 | for every stall pattern, after k < n ready cycles the reader offers word k - 1 with those before it handed over, and with the n-th it comes to `tlast`, never idle on the way |
| `BramReader.StalledPacket` | cores/axis_avgr16bits_v1_0/bram_reader.vhd:95-132 | under any stalls a sink ready in n cycles and in the next has words 0..n-1 once each, in order, the last marked, and the reader is finished |
| `BramReader.CompleteIffReadyAtLast` | cores/axis_avgr16bits_v1_0/bram_reader.vhd:122-127 | the packet is complete iff the sink is ready in the `tlast` cycle |
| `BramReader.ReadySinkGetsPacket` | cores/axis_avgr16bits_v1_0/bram_reader.vhd:84-132 | an always-ready sink gets the whole packet in n + 2 cycles |
| `BramReader.ExactFromTwoWords` | cores/axis_avgr16bits_v1_0/bram_reader.vhd:95-117 | for 1 <= n <= depth an always-ready sink gets the right packet iff n >= 2 |
| `BramReader.OneWordOverruns` | cores/axis_avgr16bits_v1_0/bram_reader.vhd:95-116 | a one-word readout sends further words |
| `ScopeReadout.RunReadout` | cores/axis_avgr16bits_v1_0/bram_reader.vhd:84-135 | while the reader is at work, on any interleaving of the two clocks, the scope stands still, no restart is on its way, and what was handed over fits the memory the readout started with |
| `ScopeReadout.HeldIff` | cores/axis_avgr16bits_v1_0/edge_det.vhd:32-56 | a readout finds the scope standing still for its whole length iff no restart was on its way when it started |
| `ScopeReadout.RequestIff` | cores/axis_avgr16bits_v1_0/edge_det.vhd:32-56 | of an idle reader asked on any edge while the scope holds a result, the scope holds it after that edge and throughout the readout iff no restart was on its way |
| `ScopeReadout.ReadoutServed` | cores/axis_avgr16bits_v1_0/bram_reader.vhd:84-135 | both clocks and all stalls together: a readout with no restart on its way goes on until the sink has been ready on n reader edges, and has handed over the memory it started with |
| `ScopeReadout.OneRestartPerRise` | cores/axis_avgr16bits_v1_0/edge_det.vhd:32-56 | the detector gives a restart on the edge after a high signal that follows a low one, and at no other time |
| `ScopeReadout.RaceHappens` | cores/axis_avgr16bits_v1_0/bram_reader.vhd:85-132 | a reader asked again right after it finished, with no scope edge between, starts with the restart on its way |
| `ScopeReadout.ReadoutStarts` | cores/axis_avgr16bits_v1_0/bram_reader.vhd:85-93 | the reader starts iff asked while the scope holds a result, and the scope holds it on unless its restart falls on that edge |
| `ScopeReadout.PacketCarriesSums` | cores/axis_avgr16bits_v1_0/avg_scope.vhd:305-360 | both cores stepping from power-up: what a readout hands over is a prefix of the packet and carries the sample sums in address and lane order |
| `ScopeReadout.FinishedReadout` | cores/axis_avgr16bits_v1_0/bram_reader.vhd:122-132 | a finished readout is the whole packet, or lacks only its last word |
| `ScopeReadout.RestartSeen` | cores/axis_avgr16bits_v1_0/edge_det.vhd:32-56 | the scope clears after a readout iff one of its clock edges sees the reader finished |
| `BramReader.ReaderCore.Tick` | cores/axis_avgr16bits_v1_0/bram_reader.vhd:58-148 | the in-place edge is the model's step and reports the word handed over |
| `TriggerChannel.CrossingMeaning` | cores/axis_lago_trigger_v1_3/axis_lago_trigger_v1_3.vhd:285-308 | the 15-bit comparisons say: nine samples below the level, then one at or above it on the level's side of zero |
| `TriggerChannel.ExtendKeepsBits` | cores/axis_lago_trigger_v1_3/axis_lago_trigger_v1_3.vhd:139-148 | a sample taken is a 14-bit signed number with the fourteen bits of the raw word |
| `TriggerChannel.SampleIsUnique` | cores/axis_lago_trigger_v1_3/axis_lago_trigger_v1_3.vhd:139-148 | and those bits leave no other choice |
| `TriggerChannel.CrossingsApart` | cores/axis_lago_trigger_v1_3/axis_lago_trigger_v1_3.vhd:285-308 | crossings on a channel are at least ten cycles apart in every run |
| `TriggerChannel.RunScaler` | cores/axis_lago_trigger_v1_3/axis_lago_trigger_v1_3.vhd:250-262 | the prescaler never passes its limit and accounts for every crossing |
| `TriggerChannel.TicksAreFloor` | cores/axis_lago_trigger_v1_3/axis_lago_trigger_v1_3.vhd:250-262 | ticks are crossings divided by the scaler, rounded down, over every run |
| `TriggerChannel.TickIsPulse` | cores/axis_lago_trigger_v1_3/axis_lago_trigger_v1_3.vhd:250-262 | a tick lasts one cycle and follows a crossing by one |
| `TriggerChannel.ScalerMustBePositive` | cores/axis_lago_trigger_v1_3/axis_lago_trigger_v1_3.vhd:250-255 | no run ticks more often than it crosses iff the scaler is at least one |
| `TriggerChannel.ZeroScalerTicks` | cores/axis_lago_trigger_v1_3/axis_lago_trigger_v1_3.vhd:250-255 | with a zero scaler a cycle ticks iff the number of crossings so far is a multiple of 2^32 |
| `TriggerChannel.ChannelCore.Shift` | cores/axis_lago_trigger_v1_3/axis_lago_trigger_v1_3.vhd:183-204 | the loop shifts the register down one place and takes in the new sample |
| `TriggerChannel.ChannelCore.Clock` | cores/axis_lago_trigger_v1_3/axis_lago_trigger_v1_3.vhd:126-296 | the in-place edge of a channel is the model's step |
| `TriggerCore.FrameStarts` | cores/axis_lago_trigger_v1_3/axis_lago_trigger_v1_3.vhd:415-429 | an idle core starts a trigger frame iff the sink is ready, no pulse per second is due and a channel ticks |
| `TriggerFrame.FrameShape` | cores/axis_lago_trigger_v1_3/axis_lago_trigger_v1_3.vhd:407-469 | what has been offered in every cycle of a frame, whatever the sink does |
| `TriggerFrame.FrameContents` | cores/axis_lago_trigger_v1_3/axis_lago_trigger_v1_3.vhd:407-469 | the sink gets exactly the twenty shift-register samples, the status word and the counter word iff it is ready in the cycles that load a sample and in the one the counter is on offer |
| `TriggerFrame.ReadyFrame` | cores/axis_lago_trigger_v1_3/axis_lago_trigger_v1_3.vhd:407-469 | to a sink that stays ready a frame takes twenty-three cycles and is whole |
| `TriggerFrame.FramesAreTagged` | cores/axis_lago_trigger_v1_3/axis_lago_trigger_v1_3.vhd:313-320 | in every run from reset the status and counter registers carry different tags while a frame goes out |
| `TriggerFrame.DisturbedFrame` | cores/axis_lago_trigger_v1_3/axis_lago_trigger_v1_3.vhd:432-447 | a stall among the samples makes the frame offer more than twenty-two words |
| `TriggerFrame.DroppedCounter` | cores/axis_lago_trigger_v1_3/axis_lago_trigger_v1_3.vhd:412-429 | a stall while the counter is on offer drops it |
| `TriggerFrame.StallResendsOldWord` | cores/axis_lago_trigger_v1_3/axis_lago_trigger_v1_3.vhd:409-447 | a stall in a frame's first cycle hands the sink the word left from before |
| `TriggerFrame.FrameShowsCrossing` | cores/axis_lago_trigger_v1_3/axis_lago_trigger_v1_3.vhd:183-311 | in every run, of a frame fired by a channel the program reads words 0 to 7 below the level and word 8 at or above it |
| `TriggerFrame.FrameDecodes` | projects/lago_v1_3/src/lago.c:851-857 | the decoder reads the sample words of an attended frame back as the sample pairs |
| `TriggerFrame.CounterOfFrame` | cores/axis_lago_trigger_v1_3/axis_lago_trigger_v1_3.vhd:316-320 | the counter word a frame loads is that of its starting pulse iff no tick falls before it is loaded, counting round the 30-bit counter |
| `TriggerFrame.StatusOfFrame` | cores/axis_lago_trigger_v1_3/axis_lago_trigger_v1_3.vhd:314-315 | with no tick before it is loaded the status word is that of the starting pulse |
| `TriggerHistory.ShiftHolds` | cores/axis_lago_trigger_v1_3/axis_lago_trigger_v1_3.vhd:126-204 | in every run from reset position j of the shift registers holds the pair accepted last as of 20 - j cycles ago |
| `TriggerHistory.FrameIsHistory` | cores/axis_lago_trigger_v1_3/axis_lago_trigger_v1_3.vhd:126-447 | end to end from reset: sample word k of an attended frame decodes to the input pair accepted last as of 20 - k cycles before the frame began |
| `TriggerHistory.LastPairIsUnique` | cores/axis_lago_trigger_v1_3/axis_lago_trigger_v1_3.vhd:126-148 | and there is only one such pair |
| `TriggerHistory.StatusNamesCrossing` | cores/axis_lago_trigger_v1_3/axis_lago_trigger_v1_3.vhd:236-315 | the status word read names the channels that crossed in the cycle before the frame was started, and the clock of that start |
| `TriggerHistory.FiredIsCrossed` | cores/axis_lago_trigger_v1_3/axis_lago_trigger_v1_3.vhd:236-263 | a channel is marked as fired iff the shift register of the cycle before showed its crossing |
| `TriggerHistory.RateSincePulse` | cores/axis_lago_trigger_v1_3/axis_lago_trigger_v1_3.vhd:221-228 | a rate register counts the ticks since the last pulse per second that cleared it, round a 24-bit counter |
| `TriggerHistory.MetadataFrame` | cores/axis_lago_trigger_v1_3/axis_lago_trigger_v1_3.vhd:166-177 | a pulse per second seen by an idle core gives a ready sink both rates, the metadata and the clock of that cycle under their tags, and the marker, in that order |
| `TriggerHistory.SubTriggerFrame` | cores/axis_lago_trigger_v1_3/axis_lago_trigger_v1_3.vhd:471-484 | a sub-trigger seen by an otherwise idle core gives a ready sink its three words |
| `TriggerCore.CountersIncrease` | cores/axis_lago_trigger_v1_3/axis_lago_trigger_v1_3.vhd:316-320 | counters put out strictly increase until the 30-bit wrap |
| `TriggerCore.CounterIsLatestPulse` | cores/axis_lago_trigger_v1_3/axis_lago_trigger_v1_3.vhd:316-320 | the counter word about to go out numbers the latest pulse |
| `TriggerCore.ChannelAlone` | cores/axis_lago_trigger_v1_3/axis_lago_trigger_v1_3.vhd:126-204 | inside the core each channel runs as it does alone on the samples taken |
| `TriggerCore.TriggerEntity.NextFsm` | cores/axis_lago_trigger_v1_3/axis_lago_trigger_v1_3.vhd:407-501 | the state machine's branches compute the model's next state and output word |
| `TriggerCore.TriggerEntity.NextRegs` | cores/axis_lago_trigger_v1_3/axis_lago_trigger_v1_3.vhd:166-320 | status, counter, rate and metadata registers get the model's next values |
| `TriggerCore.TriggerEntity.Tick` | cores/axis_lago_trigger_v1_3/axis_lago_trigger_v1_3.vhd:126-506 | the in-place edge over both channels is the model's step |
| `WordCodec.DecodeInvertsEncode` | projects/lago_v1_3/src/lago.c:855-990 | for every payload the decoder picks the class encoded and recovers it, sign extension included |
| `WordCodec.EncodingsDisjoint` | cores/axis_lago_trigger_v1_3/axis_lago_trigger_v1_3.vhd:166-177 | no two messages share an encoding |
| `WordCodec.Layout` | cores/axis_lago_trigger_v1_3/axis_lago_trigger_v1_3.vhd:148-177 | the bits of every word: each channel in its half, each tag and field in its place |
| `WordCodec.OtherWords` | projects/lago_v1_3/src/lago.c:947-990 | GPS sub-tags from three on are skipped and the last tag is unknown |
| `WordCodec.LostPulsesConserved` | projects/lago_v1_3/src/lago.c:875-881 | received plus lost equals last minus first iff the counters strictly increase |
| `WordCodec.LostAtLeast` | projects/lago_v1_3/src/lago.c:875-881 | the program never counts too few pulses as lost |
| `WordCodec.LostAreSkipped` | projects/lago_v1_3/src/lago.c:875-881 | for every list of counters, increasing or not, what is counted as lost is the number of pulse numbers strictly between one counter and the next, summed |
| `WordCodec.LastTwoAreKept` | projects/lago_v1_3/src/lago.c:876-877 | the program remembers the last two counters it has read |
| `WordCodec.TriggersAreWords` | projects/lago_v1_3/src/lago.c:868-871 | a mask's tally is the number of places in the buffer where a trigger word with that mask stands |
| `WordCodec.ConservedFromFirst` | projects/lago_v1_3/src/lago.c:875-881 | leading zero counters do not disturb the law |
| `WordCodec.LagoReader.ReadWord` | projects/lago_v1_3/src/lago.c:851-990 | one word is logged by class, enters the lost-pulse sum and its mask's tally |
| `WordCodec.LagoReader.ReadWords` | projects/lago_v1_3/src/lago.c:851-990 | the loop over a buffer logs every word and counts every counter and mask |
| `CounterDelivery.CountersArrive` | cores/axis_lago_trigger_v1_3/axis_lago_trigger_v1_3.vhd:407-506 | at every point of a run the counters the program has read or is offered are those put out, in order, iff no stall falls on a counter on offer while idle or on a frame's first cycle with a counter left over |
| `CounterDelivery.ReadCountersIncrease` | cores/axis_lago_trigger_v1_3/axis_lago_trigger_v1_3.vhd:407-506 | the counters read or on offer strictly increase iff no frame is stalled in its first cycle with a counter the sink already has |
| `CounterDelivery.ReadyIsEnough` | cores/axis_lago_trigger_v1_3/axis_lago_trigger_v1_3.vhd:407-506 | a sink that is always ready meets both conditions |
| `CounterDelivery.PulsesAreConserved` | projects/lago_v1_3/src/lago.c:875-881 | core and program together, dropped counters included: counters read after the first non-zero one plus pulses counted lost are last minus first, over every run that repeats no counter |
| `NmeaFraming.RunGathers` | apps/rp_tinygps/tinygps.c:80-113 | over every stream the pending fields are the terms since the last '$', each clipped to 14 characters, folded over what was pending before it |
| `NmeaFraming.ReportsExactly` | apps/rp_tinygps/tinygps.c:80-113 | a character reports iff it ends a checksum term, the terms since the last '$' make the sentence valid, and the two bytes the test reads spell the xor covered since then |
| `NmeaFraming.ComparedIsReceived` | apps/rp_tinygps/tinygps.c:202-204 | the test reads the first two characters received, whatever the buffer held before, iff the checksum term has at least two |
| `NmeaFraming.ComparedBytes` | apps/rp_tinygps/tinygps.c:87-109 | what it reads otherwise: a NUL for the second of one character, NUL and the byte left over for none |
| `NmeaFraming.PublicationSafety` | apps/rp_tinygps/tinygps.c:80-113 | over every character stream, published fields change only on a reporting step, with the validity flag raised since the last '$', to what the terms since then made of the fields pending before it; a checksum term of two characters or more spells the xor covered since then, for a shorter one the bytes of `Compared` do |
| `NmeaFraming.BufferedTerm` | apps/rp_tinygps/tinygps.c:87-109 | the buffer holds the term's first 14 characters and a NUL, and the index never passes 14 |
| `NmeaFraming.SentenceResult` | apps/rp_tinygps/tinygps.c:73-114 | from any state, the line end after a sentence reports and publishes it iff it was found valid and its two digits spell the xor of its body |
| `NmeaFraming.SentenceLeaves` | apps/rp_tinygps/tinygps.c:200-243 | reported or not, a sentence leaves pending what its terms gathered |
| `NmeaFraming.NoDigits` | apps/rp_tinygps/tinygps.c:200-204 | a sentence with no digits after its asterisk is reported iff it was found valid and NUL and the second character of its last term spell the xor of its body |
| `NmeaFraming.NoEarlyReport` | apps/rp_tinygps/tinygps.c:80-113 | no character before the line end reports |
| `TinyGps.GpsPublicationSafety` | apps/rp_tinygps/tinygps.c:198-243 | publication safety, with its fold of the terms and its two cases of checksum term, for the two sentence types and their fields, from power-up |
| `TinyGps.PrintedIsReported` | apps/rp_tinygps/tinygps.c:132-140 | a sentence printed with its checksum is reported at its line end iff valid, and not before |
| `TinyGps.LowerCaseIsReported` | apps/rp_tinygps/tinygps.c:132-140 | the same with the checksum printed in lower case |
| `TinyGps.XorIsBitwise` | apps/rp_tinygps/tinygps.c:110-111 | the parity is the exclusive or of the bytes, bit by bit |
| `TinyGps.OtherSentencesIgnored` | apps/rp_tinygps/tinygps.c:245-257 | from any state a sentence whose first term is a prefix of neither name, such as GPGSV, is never reported, whatever its digits, and leaves the published and pending fields as they were |
| `TinyGps.OtherTermsIgnored` | apps/rp_tinygps/tinygps.c:245-257 | its terms change no pending field and no validity |
| `TinyGps.RmcRoundTrip` | apps/rp_tinygps/tinygps.c:198-295 | from any state a printed sentence of at most 32 terms whose first is a prefix of GPRMC is reported iff its status is 'A', and then publishes exactly its fields, for an empty or missing term the value pending before it |
| `TinyGps.GgaRoundTrip` | apps/rp_tinygps/tinygps.c:198-308 | the same for a prefix of GPGGA that is none of GPRMC, with fix quality above '0' |
| `TinyGps.RmcStandsAlone` | apps/rp_tinygps/tinygps.c:257-295 | what a GPRMC sentence makes public does not depend on earlier sentences' pending fields iff it is not valid or its terms 1, 3, 5, 7, 8 and 9 are non-empty |
| `TinyGps.GgaStandsAlone` | apps/rp_tinygps/tinygps.c:257-308 | the same for GPGGA with terms 1, 2, 4, 7, 8 and 9 |
| `TinyGps.EmptyLatitudeFlips` | apps/rp_tinygps/tinygps.c:268-277 | an empty latitude before 'S' publishes the pending latitude with its sign turned |
| `TinyGps.UnverifiedTime` | apps/rp_tinygps/tinygps.c:257-264 | a sentence with wrong digits publishes nothing, but its time is published by the next valid sentence with an empty time |
| `TinyGps.CombineInjective` | apps/rp_tinygps/tinygps.c:193 | below 32 the combined key determines sentence type and term number |
| `TinyGps.CombineIsOr` | apps/rp_tinygps/tinygps.c:193 | the key is the term number with bit 5 set for a GPRMC, every other bit being that of the number |
| `TinyGps.StatusDecides` | apps/rp_tinygps/tinygps.c:265-267 | a status term decides validity: 'A' or not, whatever it was before |
| `TinyGps.QualityDecides` | apps/rp_tinygps/tinygps.c:296-298 | a fix quality decides validity: above '0' or not |
| `TinyGps.CombineAliases` | apps/rp_tinygps/tinygps.c:193 | term 32 + n of either sentence has the key of term n of a GPRMC |
| `TinyGps.DecimalRoundTrip` | apps/rp_tinygps/tinygps.c:142-168 | a number of hundredths printed at any width, with leading zeros, reads back exactly |
| `TinyGps.DecimalIsFloor` | apps/rp_tinygps/tinygps.c:142-168 | for any number of digits before and after the point the result is floor(100*value), up to 32-bit wrap |
| `TinyGps.WholeDecimal` | apps/rp_tinygps/tinygps.c:142-168 | without a point it is 100 times the number |
| `TinyGps.SmallSigned` | apps/rp_tinygps/tinygps.c:299-301 | a sign before a small number negates it in a byte |
| `TinyGps.LongRoundTrip` | apps/rp_tinygps/tinygps.c:313-319 | a whole number printed at any width, with leading zeros, reads back exactly |
| `TinyGps.DegreesAreFloor` | apps/rp_tinygps/tinygps.c:170-191 | for any number of fraction digits the result is floor(10^5*(deg + min/60)), up to 32-bit wrap of the whole |
| `GpsReport.PlaceRead` | apps/rp_tinygps/tinygps.c:170-191 | a position printed as dddmm.mmmm with its hemisphere reads back as the signed exact floor of its angle |
| `GpsReport.SignedRoundTrip` | apps/rp_tinygps/tinygps.c:142-168 | a signed number of hundredths reads back as its 32-bit two's complement |
| `GpsReport.RmcReported` | apps/rp_tinygps/tinygps.c:73-311 | from any state, a GPRMC report printed with fixed-width numerals publishes its time, date, signed position, speed and course, and nothing else, iff it is valid |
| `GpsReport.GgaReported` | apps/rp_tinygps/tinygps.c:73-311 | the same for GPGGA with its altitude, satellites and dilution of precision |
| `GpsReport.ReportedWithoutDigits` | apps/rp_tinygps/tinygps.c:200-204 | from any state `$GPRMC,A,AA*` and a line end is reported with no checksum digit received |
| `GpsReport.UnverifiedTimeExample` | apps/rp_tinygps/tinygps.c:257-264 | from any state `$GPRMC,1,A*` with wrong digits is not reported, and a valid `$GPRMC,,A` after it publishes its time |
| `TinyGps.ScanLong` | apps/rp_tinygps/tinygps.c:313-319 | the digit loop computes the leading number in 32 bits |
| `TinyGps.ScanDecimal` | apps/rp_tinygps/tinygps.c:142-168 | sign, units and two decimals, in 32 bits |
| `TinyGps.ScanDegrees` | apps/rp_tinygps/tinygps.c:170-191 | the loops over units and fraction compute the specified degrees |
| `TinyGps.CompareName` | apps/rp_tinygps/tinygps.c:321-326 | the comparison succeeds iff the term is a prefix of the name |
| `TinyGps.GpsReader.StoreTerm` | apps/rp_tinygps/tinygps.c:257-308 | the switch stores the field its sentence type and term number select |
| `TinyGps.GpsReader.CompleteTerm` | apps/rp_tinygps/tinygps.c:198-311 | the in-place term completion is the model's |
| `TinyGps.GpsReader.OnCharacter` | apps/rp_tinygps/tinygps.c:73-114 | the in-place character step is the model's, result included |

## Left out

- Trigger versions 1.0 to 1.2, the 32-bit and the generic averagers: older or parallel copies of what is modelled.
- The sub-trigger detector and its charge sums: its signal and its three words are free inputs of the core; `CounterDelivery` uses only that their two top bits are 00 or 01.
- The `current`/`pos`/`limit` cursor, file naming, calendar and voltage lines of `read_buffer`: the model starts from the words in the order the loop visits them.
- A reset in the middle of a run, of either FIFO domain alone in particular, and a change of configuration during a run.
- Metastability, and the registered `tready`/`tvalid` outputs of `axis_fifo`: edges are atomic and order is stated over `we_s` and `rd_s`.
- `AsyncFifo.AxisFifo` has one method per clock; coinciding edges are modelled on values (`BothEdges`).
- The sensitivity lists of the combinational processes: next-state logic is taken as synthesised, a function of all the signals it reads.
- The internals of FIFO36E1: it is a queue whose ALMOSTEMPTY, when low, promises at least 17 words, and FULL is a free input.
- The AXI write response and the delay from an accepted beat to its visibility in memory: a beat lands when it is taken.
- The behaviour of the burst writer when the memory takes data before its address: excluded by `Promised`; `PendingAddressIsStable` says what then goes wrong.
- Sockets: a failed `send` ends the connection and is not modelled; the time a pass takes is the free choice of its `Pass`.
- Register accesses, interrupts, clocks and the time-out of the bitstream driver: how a transfer ends is the parameter `outcome`.
- The `.bit` header parsing in `fpga-bit-to-bin.py`: file format plumbing around `flip32`.
- The synchronisers in front of the averager's start, send, trigger and configuration: these are inputs of the model; metastability of the restart between its two clocks.
- The contents of a readout that races with a restart: `ScopeReadout.RequestIff` says when that is.
- The character and sentence statistics and the fix ages of the GPS parser: counters and clock readings beside the published fields.
- Distances, floats and printed text of the GPS application and the acquisition program: floating point.
- TinyGps: `long` is 32 bits and `char` is unsigned, as on the ARM target; a `long` overflow in `gpsatol`, undefined in C, is taken to wrap.
- TinyGps.RmcRoundTrip: sentences of more than 32 terms, whose later terms alias earlier ones (`TinyGps.CombineAliases`).
- GpsReport.RmcReported: time and date are published as the numbers hhmmss.ss and ddmmyy read as, as the program keeps them; positions are printed to four places.
- WordCodec.LagoReader.ReadWord: the lost-pulse sum is unbounded, and baseline sums are not kept.
- WordCodec.DecodeInvertsEncode: the program ignores the payload of temperature, pressure, date and satellite words, so only their class is recovered.
