/** What every step of the transmit protocol keeps, and hence what holds in every run. */
module TxInvariant {
  import opened Sequences
  import opened Frames
  import opened TxProtocol

  /** Frames handed to the kernel and not yet harvested, oldest submission first. */
  function Outstanding(s: TxState): seq<nat> { s.comp + s.kernel + s.ring }

  /** Frames written but not yet handed over, in the order they were written. */
  function Batched(s: TxState): (q: seq<nat>)
    requires s.cursor < s.cfg.frames && s.batched <= s.cfg.frames
  {
    Before(s.cursor, s.batched, s.cfg.frames)
  }

  /** Frames whose payload has been accepted but is not on the wire yet. */
  function Unsent(s: TxState): (q: seq<nat>)
    requires s.cursor < s.cfg.frames && s.batched <= s.cfg.frames
  {
    s.kernel + s.ring + Batched(s)
  }

  /** What the user side believes agrees with where the frames are. Inside put_batch_on_tx_queue
      the batch is already marked but not yet on the ring; marked says whether that is so. */
  ghost predicate Inv(s: TxState, marked: bool) {
    && WellFormed(s)
    && s.batched <= s.cfg.frames
    && Distinct(Outstanding(s) + Batched(s))
    && s.outstanding == |Outstanding(s)|
    && s.pktsTx == s.pktsCompleted + s.outstanding
    && |s.accepted| == s.pktsTx + s.batched
    && |s.sent| == s.pktsCompleted + |s.comp|
    && forall i :: 0 <= i < s.cfg.frames ==>
         s.status[i] == if i in Outstanding(s) || (marked && i in Batched(s)) then OnTxQueue else Free
  }

  /** Every accepted payload is either on the wire, once, or still held, unchanged, by one frame. */
  ghost predicate ExactlyOnce(s: TxState)
    requires WellFormed(s) && s.batched <= s.cfg.frames
  {
    multiset(s.accepted) == multiset(s.sent) + multiset(Read(s.content, Unsent(s)))
  }

  /** Payloads reach the wire in the order they were accepted. */
  ghost predicate InOrder(s: TxState)
    requires WellFormed(s) && s.batched <= s.cfg.frames
  {
    s.accepted == s.sent + Read(s.content, Unsent(s))
  }

  /** Outstanding frames and then the batch are the stretch of the cycle that ends at the cursor. */
  ghost predicate InWindow(s: TxState)
    requires WellFormed(s) && s.batched <= s.cfg.frames
  {
    && s.outstanding + s.batched <= s.cfg.frames
    && Outstanding(s) + Batched(s) == Before(s.cursor, s.outstanding + s.batched, s.cfg.frames)
  }

  /** The invariant and the ledger; fifo says that the kernel has completed in order so far. */
  ghost predicate Agrees(s: TxState, marked: bool, fifo: bool) {
    && WellFormed(s) && s.batched <= s.cfg.frames
    && Inv(s, marked)
    && ExactlyOnce(s)
    && (fifo ==> InWindow(s) && InOrder(s))
  }

  /** Between calls the batch is not full; a full batch fits in tx_frames. */
  ghost predicate Idle(s: TxState, fifo: bool) {
    Agrees(s, false, fifo) && s.batched < s.cfg.batchSize <= s.cfg.frames
  }

  /** In the submission loop the batch is marked and waiting. */
  ghost predicate Waiting(s: TxState, fifo: bool) {
    Agrees(s, true, fifo) && 0 < s.batched && Contiguous(s)
  }

  /** What a call keeps, whatever the batch size. */
  ghost predicate Kept(r: Outcome, fifo: bool) {
    match r
    case Ok(s, _) => Agrees(s, false, fifo)
    case NoFreeTxFrames(s) => Agrees(s, false, fifo)
    case Panicked => true
    case Spinning(s) => Waiting(s, fifo) || Agrees(s, false, fifo)
  }

  ghost predicate Good(r: Outcome, fifo: bool) {
    match r
    case Ok(s, _) => Idle(s, fifo)
    case NoFreeTxFrames(s) => Idle(s, fifo)
    case Panicked => true
    case Spinning(s) => Waiting(s, fifo) || Idle(s, fifo)
  }

  // ---------- kernels that complete in order ----------

  predicate FifoTurn(turn: Turn) {
    forall k :: 0 <= k < |turn| && turn[k].Complete? ==> turn[k].i == 0
  }

  predicate FifoTurns(turns: seq<Turn>) {
    forall k :: 0 <= k < |turns| ==> FifoTurn(turns[k])
  }

  predicate FifoEvents(es: seq<Event>) {
    forall k :: 0 <= k < |es| ==>
      if es[k].KernelTurn? then FifoTurn(es[k].turn) else FifoTurns(es[k].turns)
  }

  // ---------- single steps ----------

  /** A kernel step only rearranges the outstanding frames, and not even that when it is in order. */
  lemma KernelMoves(s: TxState, step: KernelStep)
    requires WellFormed(s)
    ensures multiset(Outstanding(Kernel(s, step))) == multiset(Outstanding(s))
    ensures step == Take || step == Complete(0) ==> Outstanding(Kernel(s, step)) == Outstanding(s)
    ensures |Kernel(s, step).sent| - |Kernel(s, step).comp| == |s.sent| - |s.comp|
  {
    var r := Kernel(s, step);
    if step == Take {
      TakeMoves(s);
    } else if r != s {
      MoveForward(s.comp, s.kernel, step.i, s.ring);
      MoveFirst(s.comp, s.kernel, s.ring);
    }
  }

  lemma TakeMoves(s: TxState)
    requires WellFormed(s)
    ensures Outstanding(Kernel(s, Take)) == Outstanding(s)
  {
    if s.ring != [] {
      assert s.ring == [s.ring[0]] + s.ring[1..];
    }
  }

  lemma KernelInv(s: TxState, step: KernelStep, marked: bool)
    requires Inv(s, marked)
    ensures Inv(Kernel(s, step), marked)
  {
    KernelMoves(s, step);
    var r := Kernel(s, step);
    Rearranged(Outstanding(r) + Batched(r), Outstanding(s) + Batched(s));
    Rearranged(Outstanding(r), Outstanding(s));
  }

  lemma TakeLedger(s: TxState)
    requires WellFormed(s) && s.batched <= s.cfg.frames
    ensures Unsent(Kernel(s, Take)) == Unsent(s)
  {
    if s.ring != [] {
      assert s.ring == [s.ring[0]] + s.ring[1..];
    }
  }

  lemma CompleteLedger(s: TxState, i: nat)
    requires WellFormed(s) && s.batched <= s.cfg.frames && Kernel(s, Complete(i)) != s
    ensures Unsent(Kernel(s, Complete(i))) == Without(Unsent(s), i)
    ensures Unsent(s)[i] == s.kernel[i]
  {
  }

  lemma MoveAcross<T>(done: seq<T>, todo: seq<T>, i: nat)
    requires i < |todo|
    ensures multiset(done + [todo[i]]) + multiset(Without(todo, i)) == multiset(done) + multiset(todo)
    ensures i == 0 ==> done + [todo[0]] + Without(todo, 0) == done + todo
  {
  }

  lemma KernelLedger(s: TxState, step: KernelStep)
    requires WellFormed(s) && s.batched <= s.cfg.frames
    requires ExactlyOnce(s)
    ensures ExactlyOnce(Kernel(s, step))
    ensures (step == Take || step == Complete(0)) && InOrder(s) ==> InOrder(Kernel(s, step))
  {
    if step.Take? {
      TakeLedger(s);
    } else if Kernel(s, step) != s {
      CompleteLedger(s, step.i);
      ReadWithout(s.content, Unsent(s), step.i);
      MoveAcross(s.sent, Read(s.content, Unsent(s)), step.i);
    }
  }

  lemma KernelWindow(s: TxState, step: KernelStep)
    requires WellFormed(s) && s.batched <= s.cfg.frames && InWindow(s)
    requires step == Take || step == Complete(0)
    ensures InWindow(Kernel(s, step))
  {
    hide Outstanding;
    KernelMoves(s, step);
  }

  lemma KernelAgrees(s: TxState, step: KernelStep, marked: bool, fifo: bool)
    requires Agrees(s, marked, fifo)
    requires fifo && step.Complete? ==> step.i == 0
    ensures Agrees(Kernel(s, step), marked, fifo)
  {
    hide Inv;
    hide ExactlyOnce;
    hide InOrder;
    hide InWindow;
    KernelInv(s, step, marked);
    KernelLedger(s, step);
    if fifo {
      KernelWindow(s, step);
    }
  }

  lemma HarvestTakesAll(s: TxState)
    requires Inv(s, false)
    ensures var r := Harvest(s);
            && r.outstanding + |s.comp| == s.outstanding && r.comp == [] && r.batched == s.batched <= s.cfg.frames
            && Outstanding(s) == s.comp + Outstanding(r)
  {
    var r := Harvest(s);
    assert r.comp + r.kernel == r.kernel;
    assert s.comp + s.kernel + s.ring == s.comp + (s.kernel + s.ring);
  }

  lemma HarvestInv(s: TxState)
    requires Inv(s, false)
    ensures Inv(Harvest(s), false)
    ensures Harvest(s).comp == []
    ensures Outstanding(s) == s.comp + Outstanding(Harvest(s))
  {
    hide Before;
    hide Outstanding;
    hide Distinct;
    HarvestTakesAll(s);
    var r := Harvest(s);
    assert Outstanding(s) + Batched(s) == s.comp + (Outstanding(r) + Batched(r));
    DistinctSum(s.comp, Outstanding(r) + Batched(r));
    assert forall i :: i in Outstanding(r) ==> i in Outstanding(r) + Batched(r);
    assert s.comp[..|s.comp|] == s.comp;
  }

  lemma HarvestLedger(s: TxState)
    requires WellFormed(s) && s.batched <= s.cfg.frames
    ensures ExactlyOnce(s) ==> ExactlyOnce(Harvest(s))
    ensures InOrder(s) ==> InOrder(Harvest(s))
  {
    assert Unsent(Harvest(s)) == Unsent(s);
  }

  lemma Rest<T>(a: seq<T>, b: seq<T>, c: seq<T>)
    ensures (a + b + c)[|a|..] == b + c
  {
  }

  lemma HarvestWindow(s: TxState)
    requires WellFormed(s) && s.batched <= s.cfg.frames && Inv(s, false) && InWindow(s)
    ensures InWindow(Harvest(s))
  {
    hide Inv;
    hide Outstanding;
    hide Before;
    hide SetAll;
    HarvestTakesAll(s);
    var r := Harvest(s);
    BeforeSuffix(s.cursor, r.outstanding + r.batched, s.outstanding + s.batched, s.cfg.frames);
    Rest(s.comp, Outstanding(r), Batched(r));
  }

  lemma HarvestAgrees(s: TxState, fifo: bool)
    requires Agrees(s, false, fifo)
    ensures Agrees(Harvest(s), false, fifo)
  {
    hide Inv;
    hide ExactlyOnce;
    hide InOrder;
    hide InWindow;
    HarvestInv(s);
    HarvestLedger(s);
    if fifo {
      HarvestWindow(s);
    }
  }

  lemma StoreInv(s: TxState, p: Payload)
    requires Inv(s, false) && s.batched < s.cfg.frames && s.status[s.cursor] == Free
    ensures Inv(Store(s, p), false)
    ensures s.cursor !in Outstanding(s) + Batched(s)
    ensures Batched(Store(s, p)) == Batched(s) + [s.cursor]
    ensures s.outstanding + s.batched < s.cfg.frames
  {
    BeforeNext(s.cursor, s.batched, s.cfg.frames);
    var all := Outstanding(s) + Batched(Store(s, p));
    assert all == Outstanding(s) + Batched(s) + [s.cursor];
    assert Below(Outstanding(s), s.cfg.frames);
    Pigeonhole(all, s.cfg.frames);
  }

  lemma StoreLedger(s: TxState, p: Payload)
    requires WellFormed(s) && s.batched < s.cfg.frames && s.cursor !in Unsent(s)
    requires Batched(Store(s, p)) == Batched(s) + [s.cursor]
    ensures Read(Store(s, p).content, Unsent(Store(s, p))) == Read(s.content, Unsent(s)) + [p]
  {
    var r := Store(s, p);
    assert Unsent(r) == Unsent(s) + [s.cursor];
    ReadSum(r.content, Unsent(s), [s.cursor]);
    ReadElsewhere(s.content, Unsent(s), s.cursor, p);
    assert Read(r.content, [s.cursor]) == [p];
  }

  lemma StoreWindow(s: TxState, p: Payload)
    requires WellFormed(s) && s.outstanding + s.batched < s.cfg.frames && InWindow(s)
    ensures InWindow(Store(s, p))
  {
    BeforeNext(s.cursor, s.outstanding + s.batched, s.cfg.frames);
    BeforeNext(s.cursor, s.batched, s.cfg.frames);
    assert Outstanding(Store(s, p)) + Batched(Store(s, p)) == Outstanding(s) + Batched(s) + [s.cursor];
  }

  lemma StoreAgrees(s: TxState, p: Payload, fifo: bool)
    requires Agrees(s, false, fifo) && s.batched < s.cfg.frames && s.status[s.cursor] == Free
    ensures Agrees(Store(s, p), false, fifo)
  {
    StoreInv(s, p);
    hide Inv;
    hide InWindow;
    StoreLedger(s, p);
    if fifo {
      StoreWindow(s, p);
    }
  }

  /** The slice handed to the tx ring is exactly the frames written since the last one, in write order. */
  lemma SliceIsBatch(s: TxState)
    requires WellFormed(s) && Contiguous(s)
    ensures Slice(s) == Batched(s)
  {
  }

  lemma MarkAgrees(s: TxState, fifo: bool)
    requires Agrees(s, false, fifo) && Contiguous(s) && 0 < s.batched
    ensures Waiting(Mark(s), fifo)
  {
    SliceIsBatch(s);
    assert Unsent(Mark(s)) == Unsent(s);
  }

  lemma EnqueueAgrees(s: TxState, fifo: bool)
    requires Waiting(s, fifo)
    ensures Agrees(Enqueue(s), false, fifo)
    ensures Outstanding(Enqueue(s)) == Outstanding(s) + Batched(s)
  {
    SliceIsBatch(s);
    assert Outstanding(Enqueue(s)) == Outstanding(s) + Batched(s);
    assert Outstanding(Enqueue(s)) + Batched(Enqueue(s)) == Outstanding(s) + Batched(s);
    assert Unsent(Enqueue(s)) == Unsent(s);
  }

  // ---------- calls ----------

  lemma {:induction false} RunAgrees(s: TxState, turn: Turn, marked: bool, fifo: bool)
    requires Agrees(s, marked, fifo)
    requires fifo ==> FifoTurn(turn)
    ensures Agrees(Run(s, turn), marked, fifo)
    decreases |turn|
  {
    hide Inv;
    hide ExactlyOnce;
    hide InOrder;
    hide InWindow;
    if turn != [] {
      KernelAgrees(s, turn[0], marked, fifo);
      RunAgrees(Kernel(s, turn[0]), turn[1..], marked, fifo);
    }
  }

  lemma {:induction false} SubmitAgrees(s: TxState, turns: seq<Turn>, fifo: bool)
    requires Waiting(s, fifo)
    requires fifo ==> FifoTurns(turns)
    ensures Kept(Submit(s, turns), fifo)
    ensures Submit(s, turns).Spinning? ==> Waiting(Submit(s, turns).s, fifo)
    ensures fifo && Submit(s, turns).Ok? ==> FifoTurns(Submit(s, turns).rest)
    decreases |turns|
  {
    hide Inv;
    hide ExactlyOnce;
    hide InOrder;
    hide InWindow;
    if turns != [] {
      RunAgrees(s, turns[0], true, fifo);
      var s1 := Run(s, turns[0]);
      if HasRoom(s1) {
        EnqueueAgrees(s1, fifo);
      } else {
        SubmitAgrees(s1, turns[1..], fifo);
      }
    }
  }

  lemma PutBatchAgrees(s: TxState, turns: seq<Turn>, fifo: bool)
    requires Agrees(s, false, fifo)
    requires fifo ==> FifoTurns(turns)
    ensures Kept(PutBatch(s, turns), fifo)
    ensures 1 <= s.cfg.batchSize <= s.cfg.frames ==> Good(PutBatch(s, turns), fifo)
    ensures fifo && PutBatch(s, turns).Ok? ==> FifoTurns(PutBatch(s, turns).rest)
  {
    hide Inv;
    hide ExactlyOnce;
    hide InOrder;
    hide InWindow;
    if s.batched != 0 && Contiguous(s) {
      MarkAgrees(s, fifo);
      SubmitAgrees(Mark(s), turns, fifo);
    }
  }

  /** A send keeps the invariant unless it laps its own batch, which takes a batch size of 0 or more than
      one above tx_frames. */
  lemma SendAgrees(s: TxState, p: Payload, checked: bool, turns: seq<Turn>, fifo: bool)
    requires Agrees(s, false, fifo) && (s.batched < s.cfg.frames || s.batched + 1 == s.cfg.batchSize)
    requires fifo ==> FifoTurns(turns)
    ensures Kept(Send(s, p, checked, turns), fifo)
    ensures Idle(s, fifo) ==> Good(Send(s, p, checked, turns), fifo)
  {
    hide Inv;
    hide ExactlyOnce;
    hide InOrder;
    hide InWindow;
    HarvestAgrees(s, fifo);
    var s1 := Harvest(s);
    if s1.status[s1.cursor] == Free && s1.batched < s1.cfg.frames {
      StoreAgrees(s1, p, fifo);
      PutBatchAgrees(Store(s1, p), turns, fifo);
    }
  }

  lemma {:induction false} DrainAgrees(s: TxState, turns: seq<Turn>, fifo: bool)
    requires Agrees(s, false, fifo)
    requires fifo ==> FifoTurns(turns)
    ensures Kept(Drain(s, turns), fifo)
    ensures Idle(s, fifo) ==> Good(Drain(s, turns), fifo)
    decreases |turns|
  {
    hide Inv;
    hide ExactlyOnce;
    hide InOrder;
    hide InWindow;
    HarvestAgrees(s, fifo);
    PutBatchAgrees(Harvest(s), turns, fifo);
    var put := PutBatch(Harvest(s), turns);
    if put.Ok? && put.s.outstanding != 0 && put.rest != [] {
      RunAgrees(put.s, put.rest[0], false, fifo);
      DrainAgrees(Run(put.s, put.rest[0]), put.rest[1..], fifo);
    }
  }

  lemma StepAgrees(s: TxState, e: Event, fifo: bool)
    requires Idle(s, fifo)
    requires fifo ==> FifoEvents([e])
    ensures Good(Step(s, e), fifo)
  {
    hide Inv;
    hide ExactlyOnce;
    hide InOrder;
    hide InWindow;
    assert [e][0] == e;
    match e {
      case SendCall(p, turns) => SendAgrees(s, p, true, turns, fifo);
      case SendApplyCall(p, turns) => SendAgrees(s, p, false, turns, fifo);
      case DrainCall(turns) => DrainAgrees(s, turns, fifo);
      case KernelTurn(turn) => RunAgrees(s, turn, false, fifo);
    }
  }

  lemma SentInOrder(s: TxState, marked: bool)
    requires Agrees(s, marked, true)
    ensures s.sent <= s.accepted
  {
    hide Inv;
    hide ExactlyOnce;
    hide Unsent;
  }

  // ---------- runs ----------

  lemma InitAgrees(cfg: TxConfig, content: seq<Payload>)
    requires 0 < cfg.frames == |content|
    ensures Agrees(Init(cfg, content), false, true)
  {
  }

  lemma InitIdle(cfg: TxConfig, content: seq<Payload>)
    requires 0 < cfg.frames == |content|
    requires 1 <= cfg.batchSize <= cfg.frames
    ensures Idle(Init(cfg, content), true)
  {
  }

  /** Over every run, whatever the order in which the kernel completes, the bookkeeping agrees
      with the location of every frame and no accepted payload is lost, repeated or altered; if
      the kernel completes in order, outstanding frames form one stretch of the cycle and
      payloads leave in the order they were accepted. */
  lemma {:induction false} RunAllAgrees(s: TxState, es: seq<Event>, fifo: bool)
    requires Idle(s, fifo)
    requires fifo ==> FifoEvents(es)
    ensures Good(RunAll(s, es), fifo)
    decreases |es|
  {
    hide Inv;
    hide ExactlyOnce;
    hide InOrder;
    hide InWindow;
    if es != [] {
      assert fifo ==> FifoEvents([es[0]]) && FifoEvents(es[1..]);
      StepAgrees(s, es[0], fifo);
      var r := Step(s, es[0]);
      if !r.Panicked? && !r.Spinning? {
        RunAllAgrees(r.s, es[1..], fifo);
      }
    }
  }
}
