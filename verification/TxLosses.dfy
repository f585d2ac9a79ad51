/** Which batch sizes lose payloads. A batch longer than tx_frames laps itself: the cursor comes round to
    a frame that is batched but still Free and overwrites it. */
module TxLosses {
  import opened Sequences
  import opened Frames
  import opened TxProtocol
  import opened TxInvariant
  import opened TxDrains

  // ---------- batch sizes up to one above tx_frames ----------

  lemma StepKept(s: TxState, e: Event, fifo: bool)
    requires Agrees(s, false, fifo) && s.batched < s.cfg.batchSize <= s.cfg.frames + 1
    requires fifo ==> FifoEvents([e])
    ensures Kept(Step(s, e), fifo)
    ensures var r := Step(s, e); r.Ok? || r.NoFreeTxFrames? ==> r.s.batched < s.cfg.batchSize
  {
    hide Inv;
    hide ExactlyOnce;
    hide InOrder;
    hide InWindow;
    assert [e][0] == e;
    match e {
      case SendCall(p, turns) => SendAgrees(s, p, true, turns, fifo);
      case SendApplyCall(p, turns) => SendAgrees(s, p, false, turns, fifo);
      case DrainCall(turns) => DrainAgrees(s, turns, fifo);
      case KernelTurn(turn) => RunAgrees(s, turn, false, fifo);
    }
  }

  /** With such a batch size the bookkeeping and the ledger hold over every run. */
  lemma {:induction false} RunAllKept(s: TxState, es: seq<Event>, fifo: bool)
    requires Agrees(s, false, fifo) && s.batched < s.cfg.batchSize <= s.cfg.frames + 1
    requires fifo ==> FifoEvents(es)
    ensures Kept(RunAll(s, es), fifo)
    decreases |es|
  {
    hide Inv;
    hide ExactlyOnce;
    hide InOrder;
    hide InWindow;
    hide Step;
    if es != [] {
      StepKept(s, es[0], fifo);
      var r := Step(s, es[0]);
      if r.Ok? || r.NoFreeTxFrames? {
        RunAllKept(r.s, es[1..], fifo);
      }
    }
  }

  ghost predicate SentOrHeld(s: TxState, p: Payload) { p in s.sent || p in s.content }

  lemma LedgerHolds(s: TxState, p: Payload)
    requires Agrees(s, false, false) && p in s.accepted
    ensures SentOrHeld(s, p)
  {
    hide Inv;
    hide InOrder;
    hide InWindow;
    assert p in multiset(s.accepted);
    if p !in s.sent {
      assert p !in multiset(s.sent);
      assert p in Read(s.content, Unsent(s));
    }
  }

  /** In every run that returns, each payload accepted is on the wire or in a frame. */
  ghost predicate NothingLost(s: TxState)
    requires WellFormed(s)
  {
    forall es: seq<Event>, p: Payload | RunAll(s, es).Ok? && p in RunAll(s, es).s.accepted ::
      SentOrHeld(RunAll(s, es).s, p)
  }

  // ---------- every other batch size ----------

  const MARKED: Payload := [1]

  /** One marked payload and then t - 1 empty ones have been written, and none has been handed over. */
  ghost predicate Lapping(s: TxState, t: nat) {
    && WellFormed(s) && s.ring == [] && s.kernel == [] && s.comp == [] && s.sent == []
    && (forall i :: 0 <= i < s.cfg.frames ==> s.status[i] == Free)
    && MARKED in s.accepted
    && 1 <= t <= s.cfg.frames + 1 && s.batched == t
    && s.cursor == (if t < s.cfg.frames then t else Wrap(t - s.cfg.frames, s.cfg.frames))
    && forall i :: 0 <= i < s.cfg.frames && (i < t - s.cfg.frames || 1 <= i < t) ==> s.content[i] == []
  }

  lemma OneMoreLapping(s: TxState, t: nat)
    requires Lapping(s, t) && t <= s.cfg.frames && (s.cfg.batchSize == 0 || t + 1 < s.cfg.batchSize)
    ensures var r := RunAll(s, [SendApplyCall([], [])]);
            r.Ok? && r.s.cfg == s.cfg && Lapping(r.s, t + 1)
  {
    assert Harvest(s) == s;
    var e := SendApplyCall([], []);
    RunAllFirst(s, e, []);
    assert [e] + [] == [e];
  }

  lemma {:induction false} LappingSends(s: TxState, t: nat)
    requires Lapping(s, 1) && t <= s.cfg.frames && (s.cfg.batchSize == 0 || t + 1 < s.cfg.batchSize)
    ensures var r := RunAll(s, Sends(t)); r.Ok? && r.s.cfg == s.cfg && Lapping(r.s, t + 1)
    decreases t
  {
    hide RunAll;
    if t == 0 {
      NothingSent(s);
    } else {
      LappingSends(s, t - 1);
      RunAllSum(s, Sends(t - 1), [SendApplyCall([], [])]);
      OneMoreLapping(RunAll(s, Sends(t - 1)).s, t);
    }
  }

  /** One payload more than there are frames: the first is overwritten before it was handed over. */
  lemma LosingRun(cfg: TxConfig, content: seq<Payload>) returns (es: seq<Event>)
    requires 0 < cfg.frames == |content|
    requires cfg.batchSize == 0 || cfg.frames + 1 < cfg.batchSize
    ensures var r := RunAll(Init(cfg, content), es);
            r.Ok? && MARKED in r.s.accepted && !SentOrHeld(r.s, MARKED)
  {
    hide RunAll;
    var s := Init(cfg, content);
    var e := SendApplyCall(MARKED, []);
    es := [e] + Sends(cfg.frames);
    RunAllFirst(s, e, Sends(cfg.frames));
    assert Harvest(s) == s;
    LappingSends(Step(s, e).s, cfg.frames);
  }

  /** In every run that returns, whatever the kernel does, no accepted payload is lost, exactly when a
      batch is at least one frame and at most one more than there are. */
  lemma NothingLostIff(cfg: TxConfig, content: seq<Payload>)
    requires 0 < cfg.frames == |content|
    ensures NothingLost(Init(cfg, content)) <==> 1 <= cfg.batchSize <= cfg.frames + 1
  {
    hide RunAll;
    hide Agrees;
    var s := Init(cfg, content);
    if 1 <= cfg.batchSize <= cfg.frames + 1 {
      AgreesAtStart(cfg, content);
      forall es: seq<Event>, p: Payload | RunAll(s, es).Ok? && p in RunAll(s, es).s.accepted
        ensures SentOrHeld(RunAll(s, es).s, p)
      {
        RunAllKept(s, es, false);
        LedgerHolds(RunAll(s, es).s, p);
      }
    } else {
      var es := LosingRun(cfg, content);
      assert !SentOrHeld(RunAll(s, es).s, MARKED);
    }
  }

  lemma AgreesAtStart(cfg: TxConfig, content: seq<Payload>)
    requires 0 < cfg.frames == |content|
    ensures Agrees(Init(cfg, content), false, false)
  {
    InitAgrees(cfg, content);
  }
}
