/** What the bookkeeping keeps for every batch size, including 0 and sizes above the number of
    frames: no frame is twice on the kernel's side, every frame there is marked, and a batch that
    can be submitted consists of free frames. It is what each method of the transmit object relies on. */
module TxReady {
  import opened Sequences
  import opened Frames
  import opened TxProtocol
  import opened TxInvariant

  ghost predicate AllAre(s: TxState, q: seq<nat>, v: FrameStatus)
    requires WellFormed(s) && Below(q, s.cfg.frames)
  {
    forall i {:trigger q[i]} :: 0 <= i < |q| ==> s.status[q[i]] == v
  }

  /** Between calls. */
  ghost predicate Ready(s: TxState) {
    && WellFormed(s) && Distinct(Outstanding(s)) && AllAre(s, Outstanding(s), OnTxQueue)
    && (Contiguous(s) ==> AllAre(s, Slice(s), Free))
  }

  /** Inside the submission loop. */
  ghost predicate Submitting(s: TxState) {
    && WellFormed(s) && Contiguous(s)
    && Distinct(Outstanding(s) + Slice(s)) && AllAre(s, Outstanding(s) + Slice(s), OnTxQueue)
  }

  lemma InitReady(cfg: TxConfig, content: seq<Payload>)
    requires 0 < cfg.frames == |content|
    ensures Ready(Init(cfg, content))
  {
  }

  /** There are no more completions to read than frames. */
  lemma CompletionsFit(s: TxState)
    requires Ready(s)
    ensures |s.comp| <= s.cfg.frames
  {
    Pigeonhole(Outstanding(s), s.cfg.frames);
  }

  lemma RearrangedAre(s: TxState, p: seq<nat>, q: seq<nat>, v: FrameStatus)
    requires WellFormed(s) && Below(p, s.cfg.frames) && multiset(p) == multiset(q)
    ensures Below(q, s.cfg.frames)
    ensures AllAre(s, p, v) ==> AllAre(s, q, v)
  {
    Rearranged(p, q);
    forall k | 0 <= k < |q| ensures q[k] in p { assert q[k] in q; }
  }

  lemma KernelReady(s: TxState, step: KernelStep)
    requires WellFormed(s)
    ensures Ready(s) ==> Ready(Kernel(s, step))
    ensures Submitting(s) ==> Submitting(Kernel(s, step))
  {
    hide Slice;
    KernelMoves(s, step);
    var r := Kernel(s, step);
    assert Contiguous(r) == Contiguous(s);
    SameSlice(s, r);
    Rearranged(Outstanding(s), Outstanding(r));
    RearrangedAre(s, Outstanding(s), Outstanding(r), OnTxQueue);
    if Contiguous(s) {
      var p, q := Outstanding(s) + Slice(s), Outstanding(r) + Slice(r);
      assert multiset(p) == multiset(q);
      Rearranged(p, q);
      RearrangedAre(s, p, q, OnTxQueue);
    }
  }

  lemma SameSlice(s: TxState, r: TxState)
    requires WellFormed(s) && WellFormed(r)
    requires s.cursor == r.cursor && s.batched == r.batched && s.cfg == r.cfg
    ensures Contiguous(s) == Contiguous(r)
    ensures Contiguous(s) ==> Slice(s) == Slice(r)
  {
  }

  lemma {:induction false} RunReady(s: TxState, turn: Turn)
    requires WellFormed(s)
    ensures Ready(s) ==> Ready(Run(s, turn))
    ensures Submitting(s) ==> Submitting(Run(s, turn))
    decreases |turn|
  {
    hide Ready;
    hide Submitting;
    if turn != [] {
      KernelReady(s, turn[0]);
      RunReady(Kernel(s, turn[0]), turn[1..]);
    }
  }

  /** A harvested frame is not one that is still on the kernel's side. */
  lemma HarvestReady(s: TxState)
    requires Ready(s)
    ensures Ready(Harvest(s))
  {
    hide Slice;
    var r := Harvest(s);
    var k := Min(|s.comp|, s.outstanding);
    SameSlice(s, r);
    assert Outstanding(s) == s.comp[..k] + Outstanding(r);
    DistinctSum(s.comp[..k], Outstanding(r));
    forall i | 0 <= i < |Outstanding(r)| ensures r.status[Outstanding(r)[i]] == OnTxQueue {
      assert Outstanding(s)[k + i] == Outstanding(r)[i];
      assert Outstanding(r)[i] in Outstanding(r);
    }
  }

  /** Only a free frame is written, so no frame on the kernel's side is. */
  lemma StoreReady(s: TxState, p: Payload)
    requires Ready(s) && s.status[s.cursor] == Free
    ensures Ready(Store(s, p))
    ensures s.cursor !in Outstanding(s)
  {
    hide Distinct;
    var r := Store(s, p);
    assert Outstanding(r) == Outstanding(s);
    if Contiguous(r) {
      SliceGrows(s, p);
    }
  }

  lemma SliceGrows(s: TxState, p: Payload)
    requires WellFormed(s) && Contiguous(Store(s, p))
    ensures Contiguous(s) && Slice(Store(s, p)) == Slice(s) + [s.cursor]
  {
  }

  lemma MarkReady(s: TxState)
    requires Ready(s) && Contiguous(s)
    ensures Submitting(Mark(s))
  {
    hide Slice;
    var r := Mark(s);
    SameSlice(s, r);
    var p, q := Outstanding(s), Slice(s);
    assert Outstanding(r) == p;
    SliceDistinct(s);
    forall i, j | 0 <= i < |p| && 0 <= j < |q| ensures p[i] != q[j] {
      assert s.status[p[i]] == OnTxQueue && s.status[q[j]] == Free;
    }
  }

  lemma SliceDistinct(s: TxState)
    requires WellFormed(s) && Contiguous(s)
    ensures Distinct(Slice(s))
  {
  }

  lemma EnqueueReady(s: TxState)
    requires Submitting(s)
    ensures Ready(Enqueue(s))
  {
    var r := Enqueue(s);
    assert Outstanding(r) == Outstanding(s) + Slice(s);
    assert Slice(r) == [];
  }

  lemma {:induction false} SubmitReady(s: TxState, turns: seq<Turn>)
    requires Submitting(s)
    ensures Submit(s, turns).Ok? ==> Ready(Submit(s, turns).s)
    decreases |turns|
  {
    hide Ready;
    if turns != [] {
      RunReady(s, turns[0]);
      var s1 := Run(s, turns[0]);
      if HasRoom(s1) { EnqueueReady(s1); } else { SubmitReady(s1, turns[1..]); }
    }
  }

  lemma PutBatchReady(s: TxState, turns: seq<Turn>)
    requires Ready(s)
    ensures PutBatch(s, turns).Ok? ==> Ready(PutBatch(s, turns).s)
  {
    if s.batched != 0 && Contiguous(s) {
      MarkReady(s);
      SubmitReady(Mark(s), turns);
    }
  }

  ghost predicate Returned(r: Outcome) {
    r.Ok? || r.NoFreeTxFrames? ==> Ready(r.s)
  }

  lemma SendReady(s: TxState, p: Payload, checked: bool, turns: seq<Turn>)
    requires Ready(s)
    ensures Returned(Send(s, p, checked, turns))
  {
    hide Distinct;
    hide AllAre;
    hide Slice;
    hide Contiguous;
    HarvestReady(s);
    var s1 := Harvest(s);
    if s1.status[s1.cursor] == Free {
      StoreReady(s1, p);
      PutBatchReady(Store(s1, p), turns);
    }
  }

  lemma {:induction false} DrainReady(s: TxState, turns: seq<Turn>)
    requires Ready(s)
    ensures Returned(Drain(s, turns))
    decreases |turns|
  {
    hide Distinct;
    hide AllAre;
    hide Slice;
    hide Contiguous;
    HarvestReady(s);
    PutBatchReady(Harvest(s), turns);
    var put := PutBatch(Harvest(s), turns);
    if put.Ok? && put.s.outstanding != 0 && put.rest != [] {
      RunReady(put.s, put.rest[0]);
      DrainReady(Run(put.s, put.rest[0]), put.rest[1..]);
    }
  }

  /** Over every run from the start, with every batch size and every kernel: whenever control is
      with the caller, no frame is twice on the kernel's side and every frame there is marked as such. */
  lemma {:induction false} RunAllReady(s: TxState, es: seq<Event>)
    requires Ready(s)
    ensures Returned(RunAll(s, es))
    decreases |es|
  {
    hide Distinct;
    hide AllAre;
    hide Slice;
    hide Contiguous;
    if es != [] {
      match es[0] {
        case SendCall(p, turns) => SendReady(s, p, true, turns);
        case SendApplyCall(p, turns) => SendReady(s, p, false, turns);
        case DrainCall(turns) => DrainReady(s, turns);
        case KernelTurn(turn) => RunReady(s, turn);
      }
      var r := Step(s, es[0]);
      if !r.Panicked? && !r.Spinning? {
        RunAllReady(r.s, es[1..]);
      }
    }
  }
}
