/** When put_batch_on_tx_queue underflows. The source looks for the start of the batch with
    tx_cursor - cur_batch_size (tx_frames.len() - cur_batch_size when the cursor is 0), so a batch
    that straddles the end of tx_frames panics. Which batch sizes can ever get there? */
module TxPanics {
  import opened Arithmetic
  import opened Sequences
  import opened Frames
  import opened TxProtocol
  import opened TxInvariant
  import opened TxTheorems

  /** No checked send carries more than the MTU (the source panics on those outright). */
  predicate Fits(es: seq<Event>, mtu: nat) {
    forall k :: 0 <= k < |es| && es[k].SendCall? ==> |es[k].p| <= mtu
  }

  /** drain is called with an empty batch, or as the last thing in the run. */
  ghost predicate WholeDrains(s: TxState, es: seq<Event>)
    requires WellFormed(s)
    decreases |es|
  {
    es != [] ==>
      && (es[0].DrainCall? ==> s.batched == 0 || |es| == 1)
      && (var r := Step(s, es[0]); r.Ok? || r.NoFreeTxFrames? ==> WholeDrains(r.s, es[1..]))
  }

  ghost predicate NeverPanics(s: TxState, whole: bool)
    requires WellFormed(s)
  {
    forall es :: Fits(es, s.cfg.mtu) && (whole ==> WholeDrains(s, es)) ==> !RunAll(s, es).Panicked?
  }

  // ---------- a batch size that divides the frame count is safe ----------

  /** Batches start at multiples of the batch size. */
  ghost predicate Aligned(s: TxState) {
    && 1 <= s.cfg.batchSize
    && s.cfg.frames % s.cfg.batchSize == 0
    && s.batched == s.cursor % s.cfg.batchSize
  }

  /** After a store into an aligned state the batch is contiguous, and ends a batch exactly at a multiple. */
  lemma AlignedStore(s: TxState, p: Payload)
    requires WellFormed(s) && Aligned(s)
    ensures var r := Store(s, p);
            && Contiguous(r)
            && (if r.batched == s.cfg.batchSize then r.cursor % s.cfg.batchSize == 0 else Aligned(r))
  {
    var b := s.cfg.batchSize;
    var r := Store(s, p);
    NextRemainder(s.cursor, b);
    RemainderAtMost(s.cfg.frames, b);
    RemainderAtMost(r.cursor, b);
    RemainderAtMost(s.cursor, b);
  }

  lemma {:induction false} DrainedBatchCannotPanic(s: TxState, turns: seq<Turn>)
    requires WellFormed(s) && Contiguous(s)
    ensures !Drain(s, turns).Panicked?
    decreases |turns|
  {
    var put := PutBatch(Harvest(s), turns);
    if put.Ok? && put.s.outstanding != 0 && put.rest != [] {
      DrainedBatchCannotPanic(Run(put.s, put.rest[0]), put.rest[1..]);
    }
  }

  lemma AlignedStep(s: TxState, e: Event)
    requires WellFormed(s) && Aligned(s)
    requires e.SendCall? ==> |e.p| <= s.cfg.mtu
    ensures !Step(s, e).Panicked?
    ensures (e.DrainCall? ==> s.batched == 0) && !Step(s, e).Spinning? ==> Aligned(Step(s, e).s)
  {
    RemainderAtMost(s.cursor, s.cfg.batchSize);
    match e {
      case SendCall(p, turns) => AlignedStore(Harvest(s), p);
      case SendApplyCall(p, turns) => AlignedStore(Harvest(s), p);
      case DrainCall(turns) => DrainedBatchCannotPanic(s, turns);
      case KernelTurn(turn) =>
    }
  }

  lemma {:induction false} AlignedRun(s: TxState, es: seq<Event>)
    requires WellFormed(s) && Aligned(s)
    requires Fits(es, s.cfg.mtu) && WholeDrains(s, es)
    ensures !RunAll(s, es).Panicked?
    decreases |es|
  {
    if es != [] {
      AlignedStep(s, es[0]);
      var r := Step(s, es[0]);
      if r.Ok? || r.NoFreeTxFrames? {
        if Aligned(r.s) {
          AlignedRun(r.s, es[1..]);
        }
      }
    }
  }

  // ---------- a batch size that does not divide it is not ----------

  /** One round: the kernel moves one frame along, then one more payload is sent, during whose
      submission the kernel empties the tx ring. */
  function Round(n: nat): seq<Event> {
    [KernelTurn(Nudge()), SendApplyCall([], EmptyingTurns(n))]
  }

  function Rounds(t: nat, n: nat): seq<Event> {
    if t == 0 then [] else Rounds(t - 1, n) + Round(n)
  }

  /** The state after t rounds that started from an empty pipeline with the cursor at c. */
  ghost predicate Cruising(s: TxState, t: nat, c: nat) {
    && Idle(s, true)
    && s.comp == []
    && s.cfg.batchSize <= s.cfg.txRingSize && 1 <= s.cfg.compRingSize
    && Position(s, t, c)
  }

  ghost predicate Position(s: TxState, t: nat, c: nat)
    requires 1 <= s.cfg.batchSize && 1 <= s.cfg.frames
  {
    && s.cursor == (c + t) % s.cfg.frames
    && s.batched == t % s.cfg.batchSize
    && s.outstanding == if t < s.cfg.batchSize then 0 else s.cfg.batchSize - t % s.cfg.batchSize
  }

  /** Round t fills a batch while the cursor is strictly inside the first batch's worth of frames. */
  ghost predicate Straddles(t: nat, c: nat, b: nat, n: nat)
    requires 1 <= b && 1 <= n
  {
    t % b == 0 && 0 < (c + t) % n < b
  }

  function Nudge(): Turn { [Take] + ([Complete(0)] + []) }

  lemma OneCompletion(s: TxState)
    requires Idle(s, true) && s.comp == [] && 1 <= s.cfg.compRingSize
    ensures Idle(Run(s, Nudge()), true)
    ensures |Run(s, Nudge()).comp| == if s.outstanding == 0 then 0 else 1
  {
    hide ExactlyOnce;
    hide InOrder;
    hide InWindow;
    RunFirst(s, Take, [Complete(0)] + []);
    RunFirst(Kernel(s, Take), Complete(0), []);
    KernelAgrees(s, Take, false, true);
    KernelAgrees(Kernel(s, Take), Complete(0), false, true);
  }

  lemma {:induction false} TakeAll(s: TxState, k: nat)
    requires WellFormed(s) && |s.ring| <= k
    ensures Run(s, seq(k, _ => Take)).ring == []
    ensures Run(s, seq(k, _ => Take)).comp == s.comp
    decreases k
  {
    if k > 0 {
      assert seq(k, _ => Take) == [Take] + seq(k - 1, _ => Take);
      RunFirst(s, Take, seq(k - 1, _ => Take));
      TakeAll(Kernel(s, Take), k - 1);
    }
  }

  function EmptyingTurns(n: nat): seq<Turn> { [seq(n, _ => Take)] }

  lemma FifoTakes(n: nat)
    ensures FifoTurns(EmptyingTurns(n))
  {
    assert FifoTurn(seq(n, _ => Take));
  }

  lemma RoundIsKernelThenSend(s: TxState)
    requires WellFormed(s)
    ensures var r := Send(Run(s, Nudge()), [], false, EmptyingTurns(s.cfg.frames));
            RunAll(s, Round(s.cfg.frames)) == if r.Panicked? || r.Spinning? then r else Ok(r.s, [])
  {
    var k := KernelTurn(Nudge());
    var e := SendApplyCall([], EmptyingTurns(s.cfg.frames));
    assert Round(s.cfg.frames) == [k] + ([e] + []);
    RunAllFirst(s, k, [e] + []);
    RunAllFirst(Step(s, k).s, e, []);
  }

  /** A full batch that does not straddle the end goes out at once when the kernel empties the ring. */
  lemma FullBatchGoesOut(s: TxState)
    requires Agrees(s, false, true) && 0 < s.batched == s.cfg.batchSize <= s.cfg.txRingSize && Contiguous(s)
    ensures var r := PutBatch(s, EmptyingTurns(s.cfg.frames));
            && r.Ok? && Idle(r.s, true)
            && r.s.outstanding == s.outstanding + s.batched && r.s.comp == s.comp
  {
    hide ExactlyOnce;
    hide InOrder;
    hide InWindow;
    var turns := EmptyingTurns(s.cfg.frames);
    FifoTakes(s.cfg.frames);
    PutBatchAgrees(s, turns, true);
    Pigeonhole(Outstanding(s) + Batched(s), s.cfg.frames);
    TakeAll(Mark(s), s.cfg.frames);
    var m := Run(Mark(s), turns[0]);
    assert HasRoom(m);
    assert Submit(Mark(s), turns) == Ok(Enqueue(m), turns[1..]);
  }

  lemma CruiseArithmetic(t: nat, b: nat, o: nat, n: nat)
    requires 1 <= b <= n
    requires o == if t < b then 0 else b - t % b
    ensures var o' := if o == 0 then 0 else o - 1;
            && o' + t % b < n
            && (t % b + 1 == b ==> o' == 0 && (t + 1) % b == 0 && t + 1 >= b)
            && (t % b + 1 < b ==> (t + 1) % b == t % b + 1 && (o' == if t + 1 < b then 0 else b - (t + 1) % b))
  {
    NextRemainder(t, b);
    if t < b { RemainderIsUnique(0, t, b); }
  }

  /** A send that is not refused stores, and submits if the batch is then full. */
  lemma AcceptedSend(k: TxState, turns: seq<Turn>)
    requires Idle(k, true) && k.outstanding - |k.comp| + k.batched < k.cfg.frames
    ensures var st := Store(Harvest(k), []);
            && Agrees(st, false, true)
            && st.cfg == k.cfg && st.comp == [] && st.batched == k.batched + 1
            && st.outstanding == k.outstanding - |k.comp|
            && st.cursor == Wrap(k.cursor + 1, k.cfg.frames)
            && Send(k, [], false, turns) == if st.batched == k.cfg.batchSize then PutBatch(st, turns) else Ok(st, turns)
  {
    HarvestAgrees(k, true);
    RefusalIsExact(k, [], false, turns);
    StoreAgrees(Harvest(k), [], true);
  }

  /** One more payload moves the position on by one; a full batch straddles exactly at Straddles. */
  lemma NextPosition(k: TxState, st: TxState, t: nat, c: nat)
    requires 1 <= k.cfg.batchSize <= k.cfg.frames && Position(k, t, c)
    requires st.cfg == k.cfg && st.batched == k.batched + 1
    requires st.cursor == Wrap(k.cursor + 1, k.cfg.frames)
    requires st.outstanding == if k.outstanding == 0 then 0 else k.outstanding - 1
    ensures st.outstanding + k.batched < k.cfg.frames && st.batched <= k.cfg.batchSize
    ensures st.batched < k.cfg.batchSize ==>
              Position(st, t + 1, c) && !Straddles(t + 1, c, k.cfg.batchSize, k.cfg.frames)
    ensures st.batched == k.cfg.batchSize ==>
              && (Straddles(t + 1, c, k.cfg.batchSize, k.cfg.frames) <==> !Contiguous(st))
              && Position(st.(batched := 0, outstanding := st.outstanding + st.batched), t + 1, c)
  {
    var n, b := k.cfg.frames, k.cfg.batchSize;
    CruiseArithmetic(t, b, k.outstanding, n);
    NextRemainder(c + t, n);
  }

  lemma SamePosition(s: TxState, r: TxState, t: nat, c: nat)
    requires 1 <= s.cfg.batchSize && 1 <= s.cfg.frames && Position(s, t, c)
    requires r.cfg == s.cfg && r.cursor == s.cursor && r.batched == s.batched && r.outstanding == s.outstanding
    ensures Position(r, t, c)
  {
  }

  lemma IdleBounds(k: TxState)
    requires Idle(k, true)
    ensures 1 <= k.cfg.batchSize <= k.cfg.frames && |k.comp| <= k.outstanding
  {
  }

  lemma CruisingSend(k: TxState, t: nat, c: nat)
    requires Idle(k, true)
    requires k.cfg.batchSize <= k.cfg.txRingSize && 1 <= k.cfg.compRingSize
    requires Position(k, t, c)
    requires |k.comp| == if k.outstanding == 0 then 0 else 1
    ensures var n := k.cfg.frames;
            var b := k.cfg.batchSize;
            var r := Send(k, [], false, EmptyingTurns(n));
            if Straddles(t + 1, c, b, n) then r.Panicked? else r.Ok? && Cruising(r.s, t + 1, c)
  {
    hide Position;
    hide Straddles;
    hide EmptyingTurns;
    hide Submit;
    hide Send;
    hide Mark;
    hide Inv;
    hide ExactlyOnce;
    hide InOrder;
    hide InWindow;
    var n := k.cfg.frames;
    IdleBounds(k);
    var st := Store(Harvest(k), []);
    NextPosition(k, st, t, c);
    AcceptedSend(k, EmptyingTurns(n));
    if st.batched == k.cfg.batchSize && Contiguous(st) {
      FullBatchGoesOut(st);
      var r := PutBatch(st, EmptyingTurns(n)).s;
      SamePosition(st.(batched := 0, outstanding := st.outstanding + st.batched), r, t + 1, c);
    }
  }

  /** A round from Cruising: the payload is accepted; a batch that becomes full goes out unless it
      straddles the end. */
  lemma CruiseOn(s: TxState, t: nat, c: nat)
    requires Cruising(s, t, c)
    ensures var n := s.cfg.frames;
            var b := s.cfg.batchSize;
            var r := RunAll(s, Round(n));
            if Straddles(t + 1, c, b, n) then r.Panicked? else r.Ok? && Cruising(r.s, t + 1, c)
  {
    assert WellFormed(s);
    hide Agrees;
    hide Run;
    hide RunAll;
    hide Send;
    hide Round;
    hide Nudge;
    hide Straddles;
    hide Position;
    OneCompletion(s);
    RoundIsKernelThenSend(s);
    SamePosition(s, Run(s, Nudge()), t, c);
    CruisingSend(Run(s, Nudge()), t, c);
  }

  /** What t rounds from an empty pipeline with the cursor at c come to. */
  ghost predicate Cruised(r: Outcome, cfg: TxConfig, t: nat, c: nat)
    requires 1 <= cfg.batchSize && 1 <= cfg.frames
  {
    || r.Panicked?
    || (r.Ok? && r.s.cfg == cfg && Cruising(r.s, t, c) && (0 < t ==> !Straddles(t, c, cfg.batchSize, cfg.frames)))
  }

  lemma OneMoreRound(s: TxState, es: seq<Event>, t: nat, c: nat)
    requires WellFormed(s) && 1 <= s.cfg.batchSize
    requires Cruised(RunAll(s, es), s.cfg, t, c)
    ensures Cruised(RunAll(s, es + Round(s.cfg.frames)), s.cfg, t + 1, c)
  {
    hide RunAll;
    hide Round;
    hide Step;
    RunAllSum(s, es, Round(s.cfg.frames));
    var r := RunAll(s, es);
    if r.Ok? {
      CruiseOn(r.s, t, c);
    }
  }

  lemma NoRounds(s: TxState, c: nat)
    requires WellFormed(s) && 1 <= s.cfg.batchSize && Cruising(s, 0, c)
    ensures Cruised(RunAll(s, Rounds(0, s.cfg.frames)), s.cfg, 0, c)
  {
    hide Cruising;
    hide WellFormed;
    hide Step;
  }

  lemma CruisingIsWellFormed(s: TxState, t: nat, c: nat)
    requires Cruising(s, t, c)
    ensures WellFormed(s) && 1 <= s.cfg.batchSize
  {
  }

  lemma {:induction false} CruiseRounds(s: TxState, t: nat, c: nat)
    requires WellFormed(s) && 1 <= s.cfg.batchSize && Cruising(s, 0, c)
    ensures Cruised(RunAll(s, Rounds(t, s.cfg.frames)), s.cfg, t, c)
  {
    hide Cruising;
    hide Cruised;
    hide Round;
    hide RunAll;
    if t == 0 {
      NoRounds(s, c);
    } else {
      CruiseRounds(s, t - 1, c);
      OneMoreRound(s, Rounds(t - 1, s.cfg.frames), t - 1, c);
    }
  }

  // A batch larger than tx_frames never goes out: the cursor laps it and the subtraction underflows.
  // Batch size 0 is never reached at all, so the batch grows past tx_frames until a drain.

  ghost predicate Filling(s: TxState, t: nat) {
    && WellFormed(s)
    && s.ring == [] && s.kernel == [] && s.comp == []
    && (forall i :: 0 <= i < s.cfg.frames ==> s.status[i] == Free)
    && s.batched == t
    && (s.cfg.batchSize == 0 || (t < s.cfg.batchSize && s.cfg.frames < s.cfg.batchSize))
  }

  lemma FillOn(s: TxState, t: nat)
    requires Filling(s, t)
    ensures var r := RunAll(s, Round(s.cfg.frames));
            if t + 1 == s.cfg.batchSize then r.Panicked? else r.Ok? && Filling(r.s, t + 1)
  {
    KernelWithNothing(s, Nudge());
    RoundIsKernelThenSend(s);
    assert Harvest(s) == s;
  }

  /** What t rounds from an empty pipeline come to when no batch can be full in time. */
  ghost predicate FilledUp(r: Outcome, cfg: TxConfig, t: nat) {
    if 0 < t == cfg.batchSize then r.Panicked? else r.Ok? && r.s.cfg == cfg && Filling(r.s, t)
  }

  lemma OneMoreFill(s: TxState, es: seq<Event>, t: nat)
    requires WellFormed(s) && FilledUp(RunAll(s, es), s.cfg, t) && (s.cfg.batchSize == 0 || t < s.cfg.batchSize)
    ensures FilledUp(RunAll(s, es + Round(s.cfg.frames)), s.cfg, t + 1)
  {
    hide RunAll;
    hide Round;
    hide Step;
    RunAllSum(s, es, Round(s.cfg.frames));
    FillOn(RunAll(s, es).s, t);
  }

  lemma NothingFilled(s: TxState)
    requires WellFormed(s) && Filling(s, 0)
    ensures FilledUp(RunAll(s, Rounds(0, s.cfg.frames)), s.cfg, 0)
  {
    hide Filling;
    hide Step;
  }

  lemma {:induction false} FillRounds(s: TxState, t: nat)
    requires WellFormed(s) && Filling(s, 0) && (s.cfg.batchSize == 0 || t <= s.cfg.batchSize)
    ensures FilledUp(RunAll(s, Rounds(t, s.cfg.frames)), s.cfg, t)
  {
    hide RunAll;
    hide Round;
    hide Filling;
    hide FilledUp;
    if t == 0 {
      NothingFilled(s);
    } else {
      FillRounds(s, t - 1);
      OneMoreFill(s, Rounds(t - 1, s.cfg.frames), t - 1);
    }
  }

  // ---------- exactly which batch sizes are safe ----------

  predicate OnlySendApply(es: seq<Event>) {
    forall k :: 0 <= k < |es| ==> es[k].SendApplyCall? || es[k].KernelTurn?
  }

  lemma {:induction false} RoundsOnlySend(t: nat, n: nat)
    ensures OnlySendApply(Rounds(t, n))
  {
    if t > 0 {
      RoundsOnlySend(t - 1, n);
    }
  }

  lemma {:induction false} OnlySendsHasWholeDrains(s: TxState, es: seq<Event>)
    requires WellFormed(s) && OnlySendApply(es)
    ensures WholeDrains(s, es) && Fits(es, s.cfg.mtu)
    decreases |es|
  {
    if es != [] {
      var r := Step(s, es[0]);
      if r.Ok? || r.NoFreeTxFrames? {
        OnlySendsHasWholeDrains(r.s, es[1..]);
      }
    }
  }

  lemma StraddlingRun(cfg: TxConfig, content: seq<Payload>) returns (es: seq<Event>)
    requires 0 < cfg.frames == |content|
    requires 1 <= cfg.batchSize && (cfg.batchSize <= cfg.txRingSize || cfg.frames < cfg.batchSize)
    requires 1 <= cfg.compRingSize && cfg.frames % cfg.batchSize != 0
    ensures OnlySendApply(es) && RunAll(Init(cfg, content), es).Panicked?
  {
    hide RunAll;
    hide Cruising;
    hide Rounds;
    hide OnlySendApply;
    var s, n, b := Init(cfg, content), cfg.frames, cfg.batchSize;
    var t := b;
    if n < b {
      InitFilling(cfg, content);
      FillRounds(s, b);
    } else {
      t := NextMultiple(n, b);
      InitCruising(cfg, content);
      CruisingIsWellFormed(s, 0, 0);
      CruiseRounds(s, t, 0);
    }
    es := Rounds(t, n);
    RoundsOnlySend(t, n);
  }

  lemma InitFilling(cfg: TxConfig, content: seq<Payload>)
    requires 0 < cfg.frames == |content| && (cfg.batchSize == 0 || cfg.frames < cfg.batchSize)
    ensures Filling(Init(cfg, content), 0)
  {
  }

  /** The first multiple of b past n, where b does not divide n: a full batch that wraps. */
  lemma NextMultiple(n: nat, b: nat) returns (t: nat)
    requires 1 <= b <= n && n % b != 0
    ensures 0 < t && Straddles(t, 0, b, n)
  {
    var q, r := n / b, n % b;
    t := (q + 1) * b;
    assert n == q * b + r && t == n + (b - r);
    MultipleHasNoRemainder(q + 1, b);
    RemainderIsUnique(1, b - r, n);
  }

  lemma {:induction false} SendsThenDrain(s: TxState, es: seq<Event>)
    requires WellFormed(s) && OnlySendApply(es)
    ensures WholeDrains(s, es + [DrainCall([])]) && Fits(es + [DrainCall([])], s.cfg.mtu)
    decreases |es|
  {
    var all := es + [DrainCall([])];
    if es != [] {
      assert all[1..] == es[1..] + [DrainCall([])];
      var r := Step(s, es[0]);
      if r.Ok? || r.NoFreeTxFrames? {
        SendsThenDrain(r.s, es[1..]);
      }
    }
  }

  /** With batch size 0 a drain after more sends than there are frames panics. */
  lemma ZeroBatchRun(cfg: TxConfig, content: seq<Payload>) returns (es: seq<Event>)
    requires 0 < cfg.frames == |content| && cfg.batchSize == 0
    ensures Fits(es, cfg.mtu) && WholeDrains(Init(cfg, content), es) && RunAll(Init(cfg, content), es).Panicked?
  {
    hide RunAll;
    hide Rounds;
    hide WholeDrains;
    hide Fits;
    var s, n := Init(cfg, content), cfg.frames;
    var sends := Rounds(n + 1, n);
    InitFilling(cfg, content);
    FillRounds(s, n + 1);
    RunAllSum(s, sends, [DrainCall([])]);
    LapPanics(RunAll(s, sends).s);
    RoundsOnlySend(n + 1, n);
    SendsThenDrain(s, sends);
    es := sends + [DrainCall([])];
  }

  lemma LapPanics(s: TxState)
    requires Filling(s, s.cfg.frames + 1)
    ensures RunAll(s, [DrainCall([])]).Panicked?
  {
    assert Harvest(s) == s;
  }

  /** If drain is called only on an empty batch or at the very end, no run panics exactly when
      the batch size is not 0 and divides the number of tx frames. */
  lemma SafeBatchSizes(cfg: TxConfig, content: seq<Payload>)
    requires 0 < cfg.frames == |content|
    requires (cfg.batchSize <= cfg.txRingSize || cfg.frames < cfg.batchSize) && 1 <= cfg.compRingSize
    ensures NeverPanics(Init(cfg, content), true) <==> cfg.batchSize != 0 && cfg.frames % cfg.batchSize == 0
  {
    var s := Init(cfg, content);
    if cfg.batchSize == 0 {
      var es := ZeroBatchRun(cfg, content);
    } else if cfg.frames % cfg.batchSize == 0 {
      RemainderIsUnique(0, 0, cfg.batchSize);
      RemainderAtMost(cfg.frames, cfg.batchSize);
      forall es | Fits(es, cfg.mtu) && WholeDrains(s, es) ensures !RunAll(s, es).Panicked? {
        AlignedRun(s, es);
      }
    } else {
      var es := StraddlingRun(cfg, content);
      OnlySendsHasWholeDrains(s, es);
    }
  }

  // ---------- drains in the middle of a batch ----------

  lemma {:induction false} SingleFrameBatchesAreWhole(s: TxState, es: seq<Event>)
    requires WellFormed(s) && Aligned(s) && s.cfg.batchSize == 1
    requires Fits(es, s.cfg.mtu)
    ensures WholeDrains(s, es)
    decreases |es|
  {
    if es != [] {
      AlignedStep(s, es[0]);
      var r := Step(s, es[0]);
      if r.Ok? || r.NoFreeTxFrames? {
        SingleFrameBatchesAreWhole(r.s, es[1..]);
      }
    }
  }

  /** One payload is sent and drained although the batch is not full: the cursor is left at 1. */
  lemma SendOneAndDrain(s: TxState) returns (turns: seq<Turn>)
    requires Cruising(s, 0, 0) && 2 <= s.cfg.batchSize
    ensures var r := Send(s, [], false, []);
            && r.Ok?
            && Drain(r.s, turns).Ok?
            && Cruising(Drain(r.s, turns).s, 0, 1)
  {
    hide ExactlyOnce;
    hide InOrder;
    hide InWindow;
    turns := [[], Nudge()];
    RemainderIsUnique(0, 0, s.cfg.batchSize);
    RemainderIsUnique(0, 1, s.cfg.frames);
    AcceptedSend(s, []);
    DrainOne(Store(Harvest(s), []), turns);
  }

  lemma DrainOne(st: TxState, turns: seq<Turn>)
    requires Agrees(st, false, true) && st.batched == 1 == st.cursor && st.outstanding == 0
    requires 1 <= st.cfg.batchSize <= st.cfg.frames && 1 <= st.cfg.txRingSize && 1 <= st.cfg.compRingSize
    requires turns == [[], Nudge()]
    ensures var r := Drain(st, turns);
            && r.Ok? && Idle(r.s, true) && r.s.comp == [] && r.s.cursor == st.cursor && r.s.cfg == st.cfg
  {
    assert Outstanding(st) == [] && Harvest(st) == st;
    MarkAgrees(st, true);
    EnqueueAgrees(Mark(st), true);
    var e := Enqueue(Mark(st));
    assert PutBatch(st, turns) == Ok(e, turns[1..]);
    LastTurn(e, turns[1..]);
    assert Drain(st, turns) == Drain(Run(e, Nudge()), turns[1..][1..]);
  }

  lemma LastTurn(e: TxState, turns: seq<Turn>)
    requires Idle(e, true) && e.comp == [] && e.batched == 0 && e.outstanding == 1
    requires 1 <= e.cfg.compRingSize && turns == [Nudge()]
    ensures var r := Drain(Run(e, Nudge()), turns[1..]);
            && r.Ok? && Idle(r.s, true) && r.s.comp == [] && r.s.cursor == e.cursor && r.s.cfg == e.cfg
  {
    hide ExactlyOnce;
    hide InOrder;
    hide InWindow;
    OneCompletion(e);
    HarvestAgrees(Run(e, Nudge()), true);
  }

  lemma TwoEventsThen(s: TxState, a: Event, b: Event, rest: seq<Event>)
    requires WellFormed(s) && Step(s, a).Ok? && Step(Step(s, a).s, b).Ok?
    ensures RunAll(s, [a] + ([b] + rest)) == RunAll(Step(Step(s, a).s, b).s, rest)
  {
    RunAllFirst(s, a, [b] + rest);
    RunAllFirst(Step(s, a).s, b, rest);
  }

  lemma InitCruising(cfg: TxConfig, content: seq<Payload>)
    requires 0 < cfg.frames == |content|
    requires 1 <= cfg.batchSize <= cfg.frames && cfg.batchSize <= cfg.txRingSize && 1 <= cfg.compRingSize
    ensures Cruising(Init(cfg, content), 0, 0)
  {
    RemainderIsUnique(0, 0, cfg.batchSize);
    RemainderIsUnique(0, 0, cfg.frames);
    InitIdle(cfg, content);
  }

  lemma DrainThenStraddle(cfg: TxConfig, content: seq<Payload>) returns (es: seq<Event>)
    requires 0 < cfg.frames == |content|
    requires 2 <= cfg.batchSize <= cfg.txRingSize && 1 <= cfg.compRingSize
    requires cfg.frames % cfg.batchSize == 0
    ensures Fits(es, cfg.mtu) && RunAll(Init(cfg, content), es).Panicked?
  {
    hide RunAll;
    hide Cruising;
    hide Rounds;
    hide Send;
    hide Drain;
    hide Fits;
    var s, n := Init(cfg, content), cfg.frames;
    RemainderAtMost(n, cfg.batchSize);
    InitCruising(cfg, content);
    CruisingIsWellFormed(s, 0, 0);
    var turns := SendOneAndDrain(s);
    var send, drain := SendApplyCall([], []), DrainCall(turns);
    TwoEventsThen(s, send, drain, Rounds(n, n));
    var r := Drain(Send(s, [], false, []).s, turns).s;
    CruisingIsWellFormed(r, 0, 1);
    CruiseRounds(r, n, 1);
    OneTurnStraddles(n, cfg.batchSize);
    es := [send] + ([drain] + Rounds(n, n));
    DrainThenRoundsFit(send, drain, n, cfg.mtu);
  }

  lemma OneTurnStraddles(n: nat, b: nat)
    requires 2 <= b <= n && n % b == 0
    ensures Straddles(n, 1, b, n)
  {
    RemainderIsUnique(1, 1, n);
  }

  lemma DrainThenRoundsFit(send: Event, drain: Event, n: nat, mtu: nat)
    requires send.SendApplyCall? && drain.DrainCall?
    ensures Fits([send] + ([drain] + Rounds(n, n)), mtu)
  {
    RoundsOnlySend(n, n);
  }

  /** If drain may be called in the middle of a batch, no run panics exactly when batches are
      single frames. */
  lemma SafeBatchSizesWithDrains(cfg: TxConfig, content: seq<Payload>)
    requires 0 < cfg.frames == |content|
    requires (cfg.batchSize <= cfg.txRingSize || cfg.frames < cfg.batchSize) && 1 <= cfg.compRingSize
    ensures NeverPanics(Init(cfg, content), false) <==> cfg.batchSize == 1
  {
    var s := Init(cfg, content);
    if cfg.batchSize == 0 {
      var es := ZeroBatchRun(cfg, content);
    } else if cfg.batchSize == 1 {
      forall es | Fits(es, cfg.mtu) ensures !RunAll(s, es).Panicked? {
        SingleFrameBatchesAreWhole(s, es);
        AlignedRun(s, es);
      }
    } else if cfg.frames % cfg.batchSize != 0 {
      var es := StraddlingRun(cfg, content);
      OnlySendsHasWholeDrains(s, es);
    } else {
      RemainderAtMost(cfg.frames, cfg.batchSize);
      var es := DrainThenStraddle(cfg, content);
    }
  }

  // ---------- batch size 0 passes the size check of Xsk2::new ----------

  /** With batch size 0 no send ever hands anything to the kernel, however many are accepted. */
  lemma {:induction false} BatchSizeZeroSendsNothing(s: TxState, es: seq<Event>)
    requires WellFormed(s) && s.cfg.batchSize == 0
    requires Fits(es, s.cfg.mtu) && forall k :: 0 <= k < |es| ==> !es[k].DrainCall?
    requires s.ring == [] && s.kernel == [] && s.comp == [] && s.sent == []
    requires forall i :: 0 <= i < s.cfg.frames ==> s.status[i] == Free
    ensures var r := RunAll(s, es);
            r.Ok? && r.s.ring == [] && r.s.kernel == [] && r.s.comp == [] && r.s.sent == []
    decreases |es|
  {
    if es != [] {
      if es[0].KernelTurn? {
        KernelWithNothing(s, es[0].turn);
      }
      BatchSizeZeroSendsNothing(Step(s, es[0]).s, es[1..]);
    }
  }

  lemma {:induction false} KernelWithNothing(s: TxState, turn: Turn)
    requires WellFormed(s) && s.ring == [] && s.kernel == []
    ensures Run(s, turn) == s
    decreases |turn|
  {
    if turn != [] {
      KernelWithNothing(s, turn[1..]);
    }
  }
}
