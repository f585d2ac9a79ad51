# Frame ownership in an AF_XDP socket

A Dafny model of how xdpsock moves UMEM frames between a program and the kernel, and proofs that
its bookkeeping (cursors, frame statuses, counters, addresses turned back into indices) agrees with
where every frame really is, over every run.

Frames of the transmit half go program, tx ring, kernel, completion ring, program. Frames of the
receive half go program, fill ring, kernel, rx ring, program. The code never sees the whole route: it
infers it from `tx_cursor`, `cur_batch_size`, `outstanding_tx_frames`, `rx_cursor`,
`n_frames_to_be_filled` and one status per frame.

## How it is built

The project has two layers.

The protocol layer works on frame indices. A state is a datatype, a call is a function of the state
and of a schedule of kernel turns, one turn for each point inside a spin loop at which the kernel may
run. A call can return, refuse, panic, or still be spinning when its schedule ends. A run is any list
of calls and kernel turns. All theorems about runs are here.

| file | contents |
|---|---|
| `TxProtocol.dfy`, `RxProtocol.dfy` | the two state machines |
| `TxInvariant.dfy`, `RxInvariant.dfy` | what every step keeps, up to whole runs |
| `TxReady.dfy`, `RxReady.dfy` | the part of it that holds for every configuration |
| `TxTheorems.dfy` | consequences for transmit |
| `TxPanics.dfy`, `TxLosses.dfy`, `TxRefusals.dfy` | exact conditions for panics, lost payloads and refusals with a frame free |
| `TxWaits.dfy`, `TxLaps.dfy`, `TxSends.dfy`, `TxDrains.dfy` | exact conditions for waiting in a loop, and for leaving it |
| `RxTheorems.dfy` | consequences for receive |
| `RxWindow.dfy`, `RxStarves.dfy`, `RxOrder.dfy`, `RxSwitch.dfy` | exact conditions for recv to miss no packet and to keep the order |
| `System.dfy` | both halves together: where each frame is, and how a run of both is a run of each |

The object layer has the real fields, arrays and loops: rings with masked, wrapping 32-bit indices,
one byte array, frame records, descriptors and addresses. Each object has a function `Abs()` to the
protocol state it stands for, and each method is proved to do to `Abs()` what the protocol function of
that name does. `Xsk2.Run` ties a run of the object, event for event and byte for byte, to a run of the
system; `System.RunProjects` ties a run of the system to a run of each half. So what is proved of the
runs of a half holds of the objects and the bytes in memory; `Session` states the main part of it from
construction on.

| file | contents |
|---|---|
| `PowerOfTwo.dfy`, `Ring.dfy` | ring sizes, masks, the copy loops |
| `Umem.dfy` | checked access, layout, index recovery, configuration |
| `TxLink.dfy`, `RxLink.dfy` | how records, bytes and descriptors stand for protocol states |
| `XskTx.dfy`, `XskRx.dfy`, `Xsk2.dfy` | the objects |
| `Arithmetic.dfy`, `Sequences.dfy`, `Frames.dfy` | shared facts and types |

## What is assumed of the kernel

- It takes frames only from the tx and fill rings and gives each back once, on the completion and rx
  rings. An action that is not possible (nothing to take, target ring full) does nothing.
- A packet it delivers lies inside the chunk of the frame it was given, at any offset in it (aligned
  mode, as `create_umem` asks for).
- Order is assumed only where a statement says so: `fifo`, `RecvFifo` and `ApplyFifo` mean that the
  kernel uses frames in the order it got them. Everything else holds for every order.
- When it runs is a parameter of every call and of every run.

## What is assumed of the configuration

Ring sizes are powers of two below 2^32, as the two configuration types enforce. Both halves have at
least one frame. The index arithmetic is 32-bit, so the objects require that the last tx frame starts
below 2^32 and that the rx area is at most 2^32 bytes long; `TxIndexExact` and `RxIndexExact` show
that this is exactly when indices are recovered. The full transmit invariant is for batch sizes from 1
to the number of tx frames, the full receive invariant for a fill ring that can hold all rx frames;
`TxReady.RunAllReady` and `RxReady.RunAllReady`, on which the objects rely, need neither. `Xsk2s.New`
constructs states that satisfy everything the methods require. What else the code leaves open is
decided by a theorem:

- Which batch sizes can panic: `SafeBatchSizes`, `SafeBatchSizesWithDrains`. A batch that straddles
  the end of `tx_frames` underflows; with drains only on an empty batch or at the end no run panics
  exactly when the batch size is not 0 and divides the number of tx frames; with drains anywhere,
  exactly when it is 1.
- Which batch sizes can lose a payload: `NothingLostIff`. None from 1 to one above the number of tx
  frames, in any run that returns; every other one, 0 included, by the run `LosingRun`.
- Whether a send can be left waiting for room. In runs without drain, `SubmissionNeverWaits`: exactly
  when the tx ring cannot hold the tx frames that whole batches use; with batch size 0 never. With
  drains anywhere, `SubmissionNeverWaitsWithDrains`: exactly when a batch can leave at all (the batch
  size is from 1 to the number of tx frames) and the tx ring cannot hold all tx frames. The refill loops
  never wait, in any configuration: `RefillNeverWaits`.
- Whether a send that waits gets out again, under kernels that keep taking: `SendTerminates`. Always,
  unless it has completed a batch that the tx ring cannot hold; `SendAlwaysEnds` says which
  configurations can get there.
- Whether drain ends, under kernels that do not idle forever while they can act: `DrainTerminates`.
  Exactly when its batch straddles the end, where it panics, or fits on the tx ring; otherwise it spins
  under every kernel. `DrainAlwaysEnds` says which configurations can get there: those with a tx ring
  smaller than tx_frames and batch size 0, which `Xsk2::new` accepts, or one more than a frame above the
  ring. `HangingRun` is such a run, and `LivelyIsFair` names kernels without looking at states.
- Whether a refused send is accepted if it is tried again: `RefusalEnds`, for every order of completion.
- A fill ring smaller than the number of rx frames: `InitNeedsFillRing`, `UndersizedFillRingIsDead`.
  The result of the first `produce` is only logged, and nothing is ever received.
- Whether `NoFreeTxFrames` is accurate: `RefusalIsExact` if completions are in order,
  `RefusalNeedsOrder` for the configurations in which some other order makes it wrong,
  `RefusedFrameIsOutstanding` for what remains true in every order.
- Whether `recv`, with a kernel in order from then on, leaves a packet behind: `RecvMissesNothing`, after
  any mix of `recv` and `recv_apply` and whatever the kernel did before. It does not, exactly when the
  frames the kernel has yet to fill are the ones just before the cursor, in order. Whether it keeps the
  arrival order: `RecvStaysInOrder`. Exactly when, moreover, the packets that already wait are in turn.
- What that means after `recv_apply` alone: `SwitchingToRecv`. Nothing is left behind exactly when the
  number of packets delivered, modulo the number of rx frames, is the cursor, or every rx frame is on the
  rx ring. In the first case order is kept as well, `AlignedSwitchKeepsOrder`; in the second
  `FullRingOrder` says which packet comes first. After a mix of calls the number of packets delivered no
  longer tells: `AlignedIsNotEnough`. In the other direction `ApplyOvertakesFilled` says which packets are
  overtaken.
- Whether `recv` needs the kernel to use frames in order: `RecvNeedsOrder`. From the start, exactly when
  there are at least two rx frames and they reach the kernel.

The comment on `RxQueue::consume` says the number of entries updated is returned. The code returns
and releases the number of entries peeked, even if the slice is shorter; `Ring.Consume` follows the
code, and `CompletionsFit` and `DescriptorsFit` show that the slices are never shorter.

## Model

| member | source | states |
|---|---|---|
| `PowerOfTwo.IsPowOfTwoIff` | src/util.rs:5-10 | the bit test holds exactly of the powers of two, and not of 0 |
| `PowerOfTwo.MaskIsRemainder` | src/umem/config.rs:85-94 | for the sizes the gate lets through, masking an index with size - 1 is taking its remainder |
| `PowerOfTwo.MaskedIndicesDiffer` | src/socket/config.rs:83-92 | size consecutive 32-bit indices, also across the wrap at 2^32, are masked to different slots |
| `Rings.Ring.Produce` | src/socket/socket.rs:269-299 | the ring's contents grow by all items in order, or not at all; the result is their number or 0 |
| `Rings.Ring.Fill` | src/umem/umem.rs:456-464 | the copy loop writes the items behind the entries, without disturbing one of them, at masked wrapping indices |
| `Rings.Ring.Consume` | src/socket/socket.rs:192-222 | the oldest min(max, length) entries leave the ring, those that fit are at the front of the slice in order, the rest of the slice is unchanged |
| `Rings.Ring.Copy` | src/umem/umem.rs:554-559 | the copy loop puts the k oldest entries in the slice and changes nothing else |
| `Rings.Ring.Release` | src/umem/umem.rs:561 | releasing drops exactly the oldest entries, whatever the free-running index |
| `Umem.ReadChecked` | src/umem/umem.rs:156-159 | a checked read returns exactly the frame's first len bytes if they are within its length, and otherwise an error naming address and length |
| `Umem.WriteChecked` | src/umem/umem.rs:190-205 | an oversized write is refused and changes nothing; otherwise a checked read returns the data and no byte outside the frame's room changes |
| `Umem.TxIndexExact` | src/xsk/tx.rs:257 | every tx index is recovered from its address exactly when the last tx frame starts below 2^32 |
| `Umem.RxIndexExact` | src/xsk/rx.rs:207-208 | the wrapping difference and division recover an rx index from any offset in the chunk exactly when the address is less than 2^32 past the first rx frame |
| `Umem.NewConfig` | src/umem/config.rs:72-109 | a configuration is returned unchanged exactly when nothing is wrong with it, with powers of two taken by their definition; otherwise something that is wrong is reported |
| `Umem.NewConfigReports` | src/umem/config.rs:80-99 | the error reported is the first fault in the order frame count, fill ring, completion ring, frame size |
| `Umem.UmemLenFits` | src/umem/config.rs:135-141 | the length of the area never overflows 64 bits |
| `Umem.CreateFrames` | src/umem/umem.rs:337-363 | frame i is free, empty and starts at i times the frame size, with an MTU that wraps in 64 bits if the headrooms do not fit; with overflow checks it panics exactly then |
| `Umem.MtuExact` | src/umem/umem.rs:340-342 | the MTU is within the frame exactly when the headrooms fit, and close to 2^64 otherwise |
| `Umem.FramesTile` | src/umem/umem.rs:348-362 | a byte is in the UMEM exactly when a frame covers it, and then only one does |
| `TxInvariant.InitIdle` | src/xsk/tx.rs:71-95 | a new transmit half satisfies the invariant |
| `TxInvariant.HarvestAgrees` | src/xsk/tx.rs:218-241 | harvesting keeps invariant, ledger and, in order, window |
| `TxInvariant.StoreAgrees` | src/xsk/tx.rs:116-123 | writing the frame at the cursor, if free, keeps them and adds the payload to the ledger |
| `TxInvariant.SliceIsBatch` | src/xsk/tx.rs:183-196 | the slice marked and submitted is the frames written since the last submission, in write order |
| `TxInvariant.PutBatchAgrees` | src/xsk/tx.rs:173-215 | for every batch size, submission keeps them through every kernel turn of its loop |
| `TxInvariant.SendAgrees` | src/xsk/tx.rs:107-171 | send and send_apply keep them, refused or not, for every batch size unless the batch already spans all tx frames and this send does not complete it |
| `TxInvariant.DrainAgrees` | src/xsk/tx.rs:244-252 | for every batch size, drain keeps them through every iteration |
| `TxInvariant.RunAllAgrees` | src/xsk/tx.rs:107-265 | with a batch size from 1 to the tx frames, over every run: statuses and counters agree with where frames are, every accepted payload is sent once or held unchanged by one frame, and with an in-order kernel the frames out are one window of the cycle and accepted is sent followed by what is in the kernel, on the ring and in the batch |
| `TxLosses.RunAllKept` | src/xsk/tx.rs:107-265 | the same with a batch size one above the tx frames, where a full batch panics |
| `TxLosses.LosingRun` | src/xsk/tx.rs:116-134 | for batch size 0 or more than one above the tx frames, a run of sends that returns and after which an accepted payload is neither sent nor in any frame |
| `TxLosses.NothingLostIff` | src/xsk/tx.rs:116-134 | in every run from the start that returns every accepted payload is sent or in a frame, exactly when the batch size is from 1 to one above the tx frames |
| `TxTheorems.CountersCount` | src/xsk/tx.rs:212-225 | outstanding_tx_frames is the number of frames marked OnTxQueue and pkts_tx - pkts_tx_completed; with the batch it fits tx_frames; accepted sends are pkts_tx plus the batch; no completion count exceeds it |
| `TxTheorems.RefusalIsExact` | src/xsk/tx.rs:110-114 | in order, a send is refused exactly when after harvesting every frame is outstanding or batched, and then one is outstanding |
| `TxTheorems.RefusedFrameIsOutstanding` | src/xsk/tx.rs:145-149 | in any order, a send is refused exactly when the frame at the cursor is on the tx ring or in the kernel |
| `TxRefusals.RefusingRun` | src/xsk/tx.rs:110-114 | a run with completions out of order after which a send is refused although a frame is neither outstanding nor batched, for every configuration that admits one |
| `TxRefusals.RefusalNeedsOrder` | src/xsk/tx.rs:110-114 | such a run exists exactly when there are two tx frames or more and the batch size is from 1 to both the tx frames and the tx ring |
| `TxTheorems.InUseIsNotTouched` | src/xsk/tx.rs:107-171 | no call changes the bytes of a frame that is batched, on the tx ring or in the kernel |
| `TxTheorems.SubmissionDoesNotWait` | src/xsk/tx.rs:198-209 | with a tx ring for all tx frames the first attempt succeeds, whatever the kernel did |
| `TxTheorems.DrainEmpties` | src/xsk/tx.rs:244-252 | drain returns only with all frames free, nothing batched or outstanding, equal counters and every accepted payload sent once, in order if completions were |
| `TxDrains.DrainWorkIsBounded` | src/xsk/tx.rs:244-252 | from every state and for every kernel, drain sees at most as many turns that change anything as the pipeline has steps to go |
| `TxDrains.SpinningKernelCanAct` | src/xsk/tx.rs:244-252 | with a batch that fits on the tx ring, wherever drain is left spinning the kernel can take or complete, unless its schedule ended before the first attempt |
| `TxDrains.DrainTerminates` | src/xsk/tx.rs:244-252 | under every endless schedule in which a kernel that can act does so after finitely many idle turns, drain ends exactly when its batch straddles the end or fits on the tx ring |
| `TxDrains.DrainHangs` | src/xsk/tx.rs:198-209 | with a batch that does not straddle the end and does not fit on the tx ring, drain spins under every schedule |
| `TxDrains.HangingRun` | src/xsk/tx.rs:132-134 | a run of sends after which it does, for batch size 0 or more than one above the ring, with a ring smaller than tx_frames |
| `TxDrains.DrainAlwaysEnds` | src/xsk/tx.rs:244-252 | in every run from the start every drain ends under every fair kernel, exactly when the tx ring holds all tx frames or the batch size is from 1 to one above the ring |
| `TxDrains.RefusalEnds` | src/xsk/tx.rs:107-114 | a send that is refused and tried again after each kernel turn has a first attempt that is not refused, for every kernel that keeps trying to take and to complete, in any order |
| `TxDrains.AttemptsRun` | src/xsk/tx.rs:107-114 | those attempts are a run of the protocol |
| `TxDrains.LivelyIsFair` | src/xsk/tx.rs:244-252 | every kernel that tries to take again and again and to complete again and again, in whatever turns and order, is such a kernel |
| `TxDrains.DrainEndsWhenProductive` | src/xsk/tx.rs:244-252 | with a batch size that fits on the tx ring, drain ends within as many turns that both take and complete as the pipeline has steps |
| `TxSends.SubmitTerminates` | src/xsk/tx.rs:198-209 | under every kernel that takes again and again the submission loop ends exactly when the batch fits on the tx ring |
| `TxSends.SendTerminates` | src/xsk/tx.rs:107-171 | under every such kernel a send returns, refuses or panics after finitely many turns, exactly unless it completes, without straddling the end, a batch that the tx ring cannot hold |
| `TxSends.SendAlwaysEnds` | src/xsk/tx.rs:107-215 | in every run from the start every send does, exactly when the batch size is at most the tx ring or above the tx frames |
| `TxWaits.SendsDoNotWait` | src/xsk/tx.rs:198-209 | in no run of sends, with a tx ring for all tx frames, is a send left in its loop |
| `TxWaits.FirstLapDoesNotWait` | src/xsk/tx.rs:183-209 | when batches do not divide tx_frames, only the first lap submits anything, and with a ring for its whole batches no send waits |
| `TxWaits.WaitsEventually` | src/xsk/tx.rs:198-209 | if the ring cannot hold the first c whole batches, some send waits for an idle kernel |
| `TxWaits.SubmissionNeverWaits` | src/xsk/tx.rs:198-209 | in runs without drain, for every batch size and frame count, no send can be left waiting exactly when the batch size is 0 or the tx ring holds the tx frames that whole batches use |
| `TxLaps.WaitsInSecondLap` | src/xsk/tx.rs:183-209 | a run in which a partial batch is drained, whole batches fill the rest of tx_frames, and the next batch waits, whenever batches do not divide tx_frames and the ring holds whole batches but not all tx frames |
| `TxLaps.SubmissionNeverWaitsWithDrains` | src/xsk/tx.rs:198-209 | with drains anywhere, no send can be left waiting exactly when the batch size is 0 or above the tx frames, or the tx ring holds all tx frames |
| `TxPanics.AlignedStep` | src/xsk/tx.rs:122-134 | while batches start at multiples of a batch size that divides tx_frames, no call panics and they go on doing so |
| `TxPanics.AlignedRun` | src/xsk/tx.rs:183-191 | hence no such run panics |
| `TxPanics.StraddlingRun` | src/xsk/tx.rs:188 | for every batch size that does not divide tx_frames a run of sends that panics |
| `TxPanics.ZeroBatchRun` | src/xsk/tx.rs:132-134 | for batch size 0 a run of sends and one drain that panics |
| `TxPanics.DrainThenStraddle` | src/xsk/tx.rs:244-252 | for every batch size above 1 that divides tx_frames a run with a drain in the middle of a batch that panics |
| `TxPanics.SafeBatchSizes` | src/xsk/tx.rs:179-191 | with drains on an empty batch or at the end, no run panics exactly when the batch size is not 0 and divides tx_frames |
| `TxPanics.SafeBatchSizesWithDrains` | src/xsk/tx.rs:179-191 | with drains anywhere, no run panics exactly when the batch size is 1 |
| `TxPanics.BatchSizeZeroSendsNothing` | src/xsk/tx.rs:132-134 | with batch size 0 no run of send and send_apply hands a frame to the kernel |
| `TxReady.StoreReady` | src/xsk/tx.rs:112-123 | for every batch size, the frame a send writes is not on the kernel's side, and readiness is kept |
| `TxReady.CompletionsFit` | src/xsk/tx.rs:220-222 | free_frames is long enough for what is consumed |
| `TxReady.RunAllReady` | src/xsk/tx.rs:107-265 | for every batch size, over every run: no frame is twice on the kernel's side, every frame there is marked, a batch that can be submitted is free frames |
| `RxInvariant.InitAgrees` | src/xsk/rx.rs:54-81 | a new receive half whose fill ring holds all rx frames satisfies the invariant |
| `RxInvariant.ReceiveAgrees` | src/xsk/rx.rs:94-115 | consuming descriptors and marking their frames Filled keeps invariant, ledger and, in order, window and delivery order |
| `RxInvariant.TakeAtCursorAgrees` | src/xsk/rx.rs:117-155 | handing over the frame at the cursor keeps them through every kernel turn of the refill loop |
| `RxInvariant.ProcessedAgrees` | src/xsk/rx.rs:202-230 | showing a batch to the closure keeps them, with the processed frames held by neither side |
| `RxInvariant.RecvApplyAgrees` | src/xsk/rx.rs:158-257 | recv_apply keeps them, also while it is refilling |
| `RxInvariant.RunAllAgrees` | src/xsk/rx.rs:83-280 | over every run of any mix of calls: counters and statuses agree with where frames are, every packet is delivered once, waits in one frame or is on the rx ring; recv only and in order: the kernel's frames are the rest of the cycle after the Filled window at the cursor and, from a state that delivered in order, packets are delivered in arrival order; recv_apply only: delivered in arrival order for every kernel |
| `RxTheorems.CountersCount` | src/xsk/rx.rs:94-96 | n_frames_to_be_filled is the number of rx frames on the kernel's side and with the Filled ones makes up all; pkts_rx - pkts_rx_delivered is the number of Filled frames; the rx ring never holds more than n_frames_to_be_filled, so no subtraction underflows |
| `RxTheorems.RefillDoesNotWait` | src/xsk/rx.rs:132-144 | with a fill ring for all rx frames both refill loops succeed at the first attempt |
| `RxTheorems.RefillNeverWaits` | src/xsk/rx.rs:232-253 | in every configuration and run no refill loop makes a second attempt |
| `RxTheorems.RecvHandsOverTheOldest` | src/xsk/rx.rs:115-155 | in order, recv returns the oldest undelivered packet whenever a frame is Filled, panics exactly if the buffer is too short for it, and reports nothing exactly when no frame is Filled |
| `RxTheorems.ApplySeesTheRing` | src/xsk/rx.rs:193-257 | in runs of recv_apply only, the closure sees the undelivered packets on the ring once each in arrival order, and exactly their frames go to the fill ring, in that order |
| `RxTheorems.ApplyOvertakesFilled` | src/xsk/rx.rs:193-230 | after recv the closure sees the undelivered packets without the first ones, as many as wait in Filled frames |
| `RxTheorems.BatchFormAgrees` | src/xsk/rx.rs:158-257 | one recv_apply and one recv per packet on the ring deliver the same packets in the same order and leave the same rings, slots and counters; only the cursor differs |
| `RxWindow.ReturningIsWindow` | src/xsk/rx.rs:85-115 | the frames the kernel has yet to fill are the ones just before the cursor, in order, exactly when after polling the Filled frames are the window at the cursor |
| `RxWindow.RunAllAfterPoll` | src/xsk/rx.rs:83-156 | with recv and an in-order kernel, over every run, what holds of the polled state goes on holding: invariant, window and order |
| `RxStarves.GapStarves` | src/xsk/rx.rs:117-154 | from any state in which a packet waits past an empty frame, a run of recv that then reports nothing while it waits |
| `RxStarves.Starved` | src/xsk/rx.rs:117-154 | from every state, after any mix of calls, in which the frames with the kernel are not the ones before the cursor, in order, a run of arrivals and recv that ends in that way |
| `RxStarves.RecvMissesNothing` | src/xsk/rx.rs:117-154 | after any mix of recv and recv_apply with any kernel, no later recv with an in-order kernel misses a Filled frame exactly when the frames with the kernel are the ones just before the cursor, in order |
| `RxOrder.RecvStaysInOrder` | src/xsk/rx.rs:117-154 | after any such mix, every later run of recv with an in-order kernel delivers a prefix of what arrived exactly when, moreover, the packets that wait after polling follow in arrival order from the cursor on |
| `RxSwitch.SwitchingToRecv` | src/xsk/rx.rs:117-154 | after recv_apply alone, whatever is on the rx ring, no later recv with an in-order kernel misses a Filled frame exactly when packets delivered modulo rx frames is the cursor or every rx frame is on the ring |
| `RxSwitch.AlignedSwitchKeepsOrder` | src/xsk/rx.rs:117-154 | after recv_apply alone, if it is the cursor, every later run of recv delivers a prefix of what arrived |
| `RxSwitch.FullRingOrder` | src/xsk/rx.rs:117-154 | after recv_apply alone, with every rx frame on the ring, the first packet recv returns is as many places late as the cursor is past the next frame |
| `RxSwitch.AlignedIsNotEnough` | src/xsk/rx.rs:117-257 | a run that mixes recv and recv_apply, with an in-order kernel, after which packets delivered modulo rx frames is the cursor and yet a later recv misses a packet |
| `RxSwitch.RecvNeedsOrder` | src/xsk/rx.rs:117-154 | from the start, with recv alone and every kernel, no recv misses a Filled frame exactly when there is one rx frame or the fill ring did not take them |
| `RxTheorems.InitNeedsFillRing` | src/xsk/rx.rs:65-75 | the constructor establishes the invariant exactly when the fill ring holds all rx frames |
| `RxTheorems.UndersizedFillRingIsDead` | src/xsk/rx.rs:65-66 | otherwise no packet is received or delivered in any run |
| `RxReady.TargetIsEmpty` | src/xsk/rx.rs:132-151 | the frame the kernel writes next holds no packet that waits |
| `RxReady.DescriptorsFit` | src/xsk/rx.rs:85-92 | filled_frames is long enough for what is consumed |
| `RxReady.RunAllReady` | src/xsk/rx.rs:54-280 | for every configuration, over every run: no frame is twice on the kernel's side and none there is Filled |
| `System.RunAgrees` | src/xsk/xsk.rs:110-131 | both invariants hold together over every run of both halves, with order on each half as far as its kernel and calls are in order |
| `System.RunProjects` | src/xsk/xsk.rs:59-63 | a run of the system that returns is a run of each half that returns in the same state; one that panics or spins does so because a half does |
| `System.AgreesMeansOrder` | src/xsk/xsk.rs:59-63 | in order, sent is a prefix of accepted and delivered a prefix of arrived |
| `System.EveryFrameHasOnePlace` | src/xsk/xsk.rs:110-131 | from construction, with a batch size from 1 to the tx frames and a fill ring for all rx frames: in every state of every run, between calls and inside spinning ones, each frame is at exactly one of ten places, on its own side, and no list names it twice |
| `TxLink.RecoverIndex` | src/xsk/tx.rs:256-257 | the 32-bit quotient of a completion address is the index of its frame |
| `TxLink.HarvestStep` | src/xsk/tx.rs:220-239 | freeing the frames that the addresses name is the protocol's harvest |
| `TxLink.StoreStep` | src/xsk/tx.rs:116-123 | writing bytes and length of the frame at the cursor changes that frame's content only, no descriptor on the kernel's side, and no byte behind the tx frames |
| `TxLink.EnqueueStep` | src/socket/socket.rs:282-293 | the descriptors of the slice stand for its indices and read its bytes |
| `TxLink.CompleteStep` | src/socket/socket.rs:287-291 | what the kernel reads through a descriptor is the payload its frame was given |
| `TxLink.OtherHalf` | src/xsk/xsk.rs:110-111 | bytes behind the tx frames do not matter to the transmit half |
| `TxLink.LayoutPlaced` | src/xsk/xsk.rs:110 | the first frames of a new UMEM are placed as the transmit half needs |
| `RxLink.RecoverIndex` | src/xsk/rx.rs:263-264 | the 32-bit quotient of a descriptor address is the index of its frame, wherever in the chunk the packet starts |
| `RxLink.UpdatedPlaced` | src/xsk/rx.rs:275-278 | overwriting addresses with reported ones leaves every frame i inside chunk i |
| `RxLink.ReceiveStep` | src/xsk/rx.rs:94-115 | recording descriptors and marking their frames Filled is the protocol's receive |
| `RxLink.ProcessStep` | src/xsk/rx.rs:205-230 | recording descriptors without marking is the protocol's processing, and disturbs no packet that waits |
| `RxLink.DeliverStep` | src/xsk/rx.rs:219-224 | a delivery at any offset is read back through its descriptor, changes no waiting packet and no byte in front of the rx frames |
| `RxLink.GivenBack` | src/xsk/rx.rs:228-239 | the addresses resubmitted are those of the frames just processed |
| `RxLink.InitialView` | src/xsk/rx.rs:63-80 | a new object with all frames offered stands for the protocol's initial state |
| `RxLink.OtherHalf` | src/xsk/xsk.rs:110-111 | bytes in front of the rx frames do not matter to the receive half |
| `RxLink.LayoutPlaced` | src/xsk/xsk.rs:111 | the remaining frames of a new UMEM are placed as the receive half needs |
| `XskTxs.XskTx.constructor` | src/xsk/tx.rs:71-95 | the object stands for the protocol's initial state |
| `XskTxs.XskTx.CompleteFrames` | src/xsk/tx.rs:218-241 | does to the protocol state what harvest does, and leaves memory alone |
| `XskTxs.XskTx.UpdateTxFrames` | src/xsk/tx.rs:254-265 | sets Free exactly the frames that the first n addresses name |
| `XskTxs.XskTx.MarkBatch` | src/xsk/tx.rs:194-196 | marks exactly the frames of the batch |
| `XskTxs.XskTx.TrySubmit` | src/xsk/tx.rs:198-214 | one attempt appends the whole batch and moves the counters if there is room, else changes nothing |
| `XskTxs.XskTx.Submit` | src/xsk/tx.rs:198-214 | the loop ends as the protocol's does, after the same kernel turns |
| `XskTxs.XskTx.PutBatch` | src/xsk/tx.rs:173-215 | returns, panics or spins exactly as the protocol's submission, in its state |
| `XskTxs.XskTx.Place` | src/xsk/tx.rs:116-123 | stores the payload exactly if it fits the MTU, and panics otherwise |
| `XskTxs.XskTx.Apply` | src/xsk/tx.rs:151-157 | stores what the closure made of the frame's own bytes |
| `XskTxs.XskTx.Send` | src/xsk/tx.rs:107-137 | accepts, refuses, panics or spins exactly as the protocol's send, in its state, for every batch size; after a panic the state is that before or after the write; no byte behind the tx frames changes |
| `XskTxs.XskTx.SendApply` | src/xsk/tx.rs:139-171 | the same for the payload its closure makes |
| `XskTxs.XskTx.Drain` | src/xsk/tx.rs:244-252 | returns, panics or spins exactly as the protocol's drain, in its state, or after a panic in the harvested one, and leaves memory alone |
| `XskRxs.XskRx.constructor` | src/xsk/rx.rs:54-81 | the object stands for the protocol's initial state, for every fill ring size |
| `XskRxs.XskRx.PollAndConsume` | src/xsk/rx.rs:85-96 | the head of the rx ring, as many as the protocol says, is in filled_frames, and the counters moved by that many |
| `XskRxs.XskRx.UpdateRxFrames` | src/xsk/rx.rs:259-280 | records the descriptors in exactly the frames they name and marks those Filled |
| `XskRxs.XskRx.ReceiveAll` | src/xsk/rx.rs:85-115 | does to the protocol state what receive does |
| `XskRxs.XskRx.Refill` | src/xsk/rx.rs:132-144 | the loop ends as the protocol's does, after the same kernel turns |
| `XskRxs.XskRx.HandOver` | src/xsk/rx.rs:148-151 | does to the protocol state what a delivery does |
| `XskRxs.XskRx.TakeAtCursor` | src/xsk/rx.rs:117-155 | the buffer starts with the packet that waited at the cursor, or nothing waited, or the buffer was too short |
| `XskRxs.XskRx.Recv` | src/xsk/rx.rs:83-156 | returns, reports nothing, panics or spins exactly as the protocol's recv, in its state, with the packet in the buffer; after a panic the descriptors are consumed and the buffer is untouched; no byte in front of the rx frames changes |
| `XskRxs.XskRx.ApplyFrames` | src/xsk/rx.rs:203-230 | the closure is given the bytes of each descriptor in order and exactly those frames are collected for resubmission |
| `XskRxs.XskRx.Process` | src/xsk/rx.rs:198-230 | does to the protocol state what processing does |
| `XskRxs.XskRx.ResubmitAll` | src/xsk/rx.rs:232-256 | the loop and the counters end as the protocol's, with processed_frames empty |
| `XskRxs.XskRx.RecvApply` | src/xsk/rx.rs:158-196 | returns or spins exactly as the protocol's recv_apply, in its state, with the closure given the packets it says, and processed_frames empty afterwards |
| `Xsk2s.New` | src/xsk/xsk.rs:87-138 | refuses exactly a batch size that, as 32 bits, exceeds the tx ring; fails exactly when the headrooms exceed the frame size or no frame is left for rx; otherwise the object stands for the system's initial state |
| `Xsk2s.Xsk2.RxKept` | src/xsk/xsk.rs:110-131 | a call on the transmit half leaves the receive half's state as it was |
| `Xsk2s.Xsk2.TxKept` | src/xsk/xsk.rs:110-131 | a call on the receive half leaves the transmit half's state as it was |
| `Xsk2s.Xsk2.Step` | src/xsk/xsk.rs:59-63 | one call or kernel turn on the object is one step of the system, with what send_apply sends made of the bytes at the cursor, and the refusal, the received bytes or what the closure saw reported to the program |
| `Xsk2s.Xsk2.Run` | src/xsk/xsk.rs:59-63 | every run of the object is a run of the system, event for event, each named by the bytes then at the cursor; what the program was told is what the system says, the packets it was given are those delivered, and the payloads accepted are those of the sends that did not report a refusal |
| `Xsk2s.Session` | src/xsk/xsk.rs:87-138 | from construction through any run, returned or spinning: both invariants hold of the bytes in memory, every frame is at exactly one place, and with in-order kernels sent is a prefix of accepted and delivered of arrived; when it returns the packets the program was given are those delivered and the payloads accepted are those of the sends not refused |

## Left out

- XskTxs.XskTx.SendApply: the closure is a function from the frame's bytes to new bytes of the same length and a packet length within them; the code does not check the length it returns, and the object requires it.
- XskRxs.XskRx.Recv: the result tells an empty packet (`Received(0)`) from no packet (`Nothing`); the source returns 0 for both.
- XskRxs.XskRx.RecvApply: the closure is represented by the sequence of byte strings it is given; its own effects are not modelled.
- Rings.Ring.Consume: a slice shorter than the entries released loses them, as in `RxQueue::consume`; `CompQueue::consume` would panic there instead. Neither happens, by `CompletionsFit` and `DescriptorsFit`.
- Xsk2s.New: a transmit half without frames is not modelled; `Xsk2::new` accepts it and the first send then indexes out of bounds. Headrooms that do not fit are a failure, as with overflow checks; with the MTU wrapped, writes would no longer stay in their frame.
- `prefill`: writes all tx frames whatever their status; it is meant for before the first send, where it only changes initial contents.
- Builds with overflow checks: 32-bit arithmetic wraps in the model. There the increment of a ring index at 2^32 would panic, and so would the subtraction that recovers an rx index when the rx area crosses a multiple of 2^32 and the address is past it.
- Batch sizes between the tx ring and the number of tx frames: `Xsk2::new` refuses them, and `SafeBatchSizes` does not speak of them.
- Overflow of the 64-bit packet counters.
- libbpf and system calls, raw pointers, `mmap`: replaced by the ring contract and a byte array.
- Polling, wakeup flags and errno: they only decide when the kernel runs, which is a parameter; whether poll found the socket readable is a parameter of recv and recv_apply.
- Timestamps, durations and rates in the statistics; only the packet counters are kept.
- Socket creation, interface statistics, builders, flag sets, error messages and logging.
- `mem::forget` and drop order, and the older `Xsk` holder.
