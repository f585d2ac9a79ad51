/** Consequences of the transmit invariant: when a send is refused, that submission never has
    to wait, what the counters count, and that drain ends with everything on the wire. */
module TxTheorems {
  import opened Sequences
  import opened Frames
  import opened TxProtocol
  import opened TxInvariant

  // ---------- counters ----------

  ghost function OnTxQueueFrames(s: TxState): (q: set<nat>)
    requires WellFormed(s)
  {
    set i: nat | i < s.cfg.frames && s.status[i] == OnTxQueue
  }

  /** outstanding_tx_frames counts the frames marked OnTxQueue, those with the batch fit in
      tx_frames, and the subtraction pkts_tx - pkts_tx_completed gives the same number. */
  lemma CountersCount(s: TxState)
    requires Inv(s, false)
    ensures |OnTxQueueFrames(s)| == s.outstanding == s.pktsTx - s.pktsCompleted
    ensures s.outstanding + s.batched <= s.cfg.frames
    ensures |s.accepted| == s.pktsTx + s.batched
    ensures |s.comp| <= s.outstanding
  {
    DistinctSum(Outstanding(s), Batched(s));
    DistinctCount(Outstanding(s));
    assert OnTxQueueFrames(s) == Elements(Outstanding(s));
    Pigeonhole(Outstanding(s) + Batched(s), s.cfg.frames);
  }

  // ---------- refusal ----------

  /** With in-order completion a send is refused exactly when, after harvesting, every frame is
      outstanding or batched; a refused send leaves some frame outstanding, so waiting can help. */
  lemma RefusalIsExact(s: TxState, p: Payload, checked: bool, turns: seq<Turn>)
    requires Idle(s, true)
    ensures Send(s, p, checked, turns).NoFreeTxFrames?
            <==> Harvest(s).outstanding + Harvest(s).batched == s.cfg.frames
    ensures Send(s, p, checked, turns).NoFreeTxFrames? ==> Harvest(s).outstanding > 0
  {
    HarvestAgrees(s, true);
    var h := Harvest(s);
    var all := Outstanding(h) + Batched(h);
    BeforeNext(h.cursor, h.batched, h.cfg.frames);
    if h.outstanding + h.batched == h.cfg.frames {
      BeforeFull(h.cursor, h.cfg.frames);
      assert h.cursor in all;
    } else {
      BeforeNext(h.cursor, h.outstanding + h.batched, h.cfg.frames);
      assert h.cursor !in all;
      assert h.cursor in Outstanding(h) ==> h.cursor in all;
    }
  }

  /** A frame is refused only while it is with the kernel, whatever the completion order. */
  lemma RefusedFrameIsOutstanding(s: TxState, p: Payload, checked: bool, turns: seq<Turn>)
    requires Idle(s, false)
    ensures Send(s, p, checked, turns).NoFreeTxFrames? <==> s.cursor in s.kernel + s.ring
  {
    hide ExactlyOnce;
    hide InOrder;
    hide InWindow;
    HarvestInv(s);
    assert Outstanding(Harvest(s)) == s.kernel + s.ring;
  }

  // ---------- frames in use are not touched ----------

  /** A call changes the bytes of a frame only if that frame was free or its completion was
      already waiting to be harvested: never while it is batched or with the kernel. */
  lemma InUseIsNotTouched(s: TxState, e: Event, i: nat)
    requires Idle(s, false) && i < s.cfg.frames
    requires i in s.kernel + s.ring + Batched(s)
    requires !Step(s, e).Panicked?
    ensures Step(s, e).s.content[i] == s.content[i]
  {
    match e {
      case SendCall(p, turns) => SendTouches(s, p, true, turns, i);
      case SendApplyCall(p, turns) => SendTouches(s, p, false, turns, i);
      case DrainCall(turns) =>
      case KernelTurn(turn) =>
    }
  }

  lemma SendTouches(s: TxState, p: Payload, checked: bool, turns: seq<Turn>, i: nat)
    requires Idle(s, false) && i < s.cfg.frames
    requires i in s.kernel + s.ring + Batched(s)
    requires !Send(s, p, checked, turns).Panicked?
    ensures Send(s, p, checked, turns).s.content[i] == s.content[i]
  {
    hide ExactlyOnce;
    hide InOrder;
    hide InWindow;
    HarvestInv(s);
    var h := Harvest(s);
    if h.status[h.cursor] == Free {
      StoreInv(h, p);
      assert i in Outstanding(h) + Batched(h);
    }
  }

  // ---------- the submission loop does not wait ----------

  /** When the tx ring can hold all tx frames, the first attempt to submit a batch succeeds,
      whatever the kernel has done so far and does before it. */
  lemma SubmissionDoesNotWait(s: TxState, turns: seq<Turn>)
    requires Agrees(s, false, false) && 0 < s.batched && Contiguous(s)
    requires s.cfg.frames <= s.cfg.txRingSize
    requires turns != []
    ensures PutBatch(s, turns) == Ok(Enqueue(Run(Mark(s), turns[0])), turns[1..])
  {
    hide ExactlyOnce;
    hide InOrder;
    hide InWindow;
    MarkAgrees(s, false);
    RunAgrees(Mark(s), turns[0], true, false);
    var m := Run(Mark(s), turns[0]);
    Pigeonhole(Outstanding(m) + Batched(m), m.cfg.frames);
  }

  // ---------- drain ----------

  /** drain returns only with an empty pipeline: every frame free, both counters equal, and
      every accepted payload on the wire exactly once, in order if completions were. */
  lemma DrainEmpties(s: TxState, turns: seq<Turn>, fifo: bool)
    requires Idle(s, fifo) && (fifo ==> FifoTurns(turns))
    ensures var r := Drain(s, turns);
            r.Ok? ==>
              && r.s.batched == 0 == r.s.outstanding
              && r.s.ring == [] && r.s.kernel == [] && r.s.comp == []
              && (forall i :: 0 <= i < r.s.cfg.frames ==> r.s.status[i] == Free)
              && r.s.pktsTx == r.s.pktsCompleted == |r.s.accepted|
              && multiset(r.s.sent) == multiset(r.s.accepted)
              && (fifo ==> r.s.sent == r.s.accepted)
  {
    DrainAgrees(s, turns, fifo);
    var r := Drain(s, turns);
    if r.Ok? {
      assert Unsent(r.s) == [];
    }
  }
}
