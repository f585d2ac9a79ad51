/** When a send is refused although a tx frame is free. With completions in order that never happens; a
    kernel that completes out of order can bring it about, in some configurations. */
module TxRefusals {
  import opened Sequences
  import opened Frames
  import opened TxProtocol
  import opened TxInvariant
  import opened TxTheorems
  import opened TxPanics
  import opened TxDrains

  /** The send is refused although, completions harvested, some frame is neither out nor batched. */
  ghost predicate RefusedWithRoom(s: TxState, p: Payload, checked: bool, turns: seq<Turn>)
    requires WellFormed(s)
  {
    Send(s, p, checked, turns).NoFreeTxFrames? && Harvest(s).outstanding + s.batched < s.cfg.frames
  }

  ghost predicate CanRefuseWithRoom(s: TxState)
    requires WellFormed(s)
  {
    exists es: seq<Event>, p: Payload, checked: bool, turns: seq<Turn> ::
      RunAll(s, es).Ok? && RefusedWithRoom(RunAll(s, es).s, p, checked, turns)
  }

  // ---------- a first lap, and then the second frame completes first ----------

  /** The first t frames have been written in turn and none has come back. */
  ghost predicate Laden(s: TxState, t: nat) {
    && Idle(s, true) && s.comp == []
    && s.outstanding + s.batched == t <= s.cfg.frames && s.cursor == (if t < s.cfg.frames then t else 0)
    && (s.outstanding == 0 || s.cfg.batchSize <= s.outstanding)
    && s.cfg.batchSize <= s.cfg.txRingSize
  }

  function LadenSend(n: nat): Event { SendApplyCall([], EmptyingTurns(n)) }

  lemma LadenOn(s: TxState, t: nat)
    requires Laden(s, t) && t < s.cfg.frames
    ensures var r := Step(s, LadenSend(s.cfg.frames)); r.Ok? && r.s.cfg == s.cfg && Laden(r.s, t + 1)
  {
    hide Inv;
    hide ExactlyOnce;
    hide InOrder;
    hide InWindow;
    hide Send;
    hide Submit;
    hide Mark;
    hide EmptyingTurns;
    var turns := EmptyingTurns(s.cfg.frames);
    AcceptedSend(s, turns);
    var st := Store(Harvest(s), []);
    if st.batched == s.cfg.batchSize {
      FullBatchGoesOut(st);
    }
  }

  lemma {:induction false} LadenRun(cfg: TxConfig, content: seq<Payload>, t: nat) returns (es: seq<Event>)
    requires t <= cfg.frames == |content| && 1 <= cfg.batchSize <= cfg.frames && cfg.batchSize <= cfg.txRingSize
    ensures var r := RunAll(Init(cfg, content), es); r.Ok? && Laden(r.s, t)
    decreases t
  {
    hide Laden;
    hide Step;
    var s := Init(cfg, content);
    es := [];
    if t == 0 {
      LadenInit(cfg, content);
    } else {
      es := LadenRun(cfg, content, t - 1);
      var r, e := RunAll(s, es).s, LadenSend(cfg.frames);
      LadenOn(r, t - 1);
      RunAllSum(s, es, [e]);
      RunAllFirst(r, e, []);
      assert [e] + [] == [e];
      es := es + [e];
    }
  }

  lemma LadenInit(cfg: TxConfig, content: seq<Payload>)
    requires cfg.frames == |content| && 1 <= cfg.batchSize <= cfg.frames && cfg.batchSize <= cfg.txRingSize
    ensures Laden(Init(cfg, content), 0)
  {
    InitIdle(cfg, content);
  }

  /** All frames are out or batched, the cursor is back at 0, and frame 0 is the oldest out. */
  lemma FirstIsOldest(s: TxState)
    requires Laden(s, s.cfg.frames) && 2 <= s.cfg.frames
    ensures 2 <= |Outstanding(s)| == s.outstanding && Outstanding(s)[0] == 0
  {
    hide ExactlyOnce;
    hide InOrder;
    var all := Outstanding(s) + Batched(s);
    assert all == Before(0, s.cfg.frames, s.cfg.frames);
    assert all[0] == Outstanding(s)[0];
  }

  lemma SecondCompletes(k: TxState)
    requires Idle(k, false) && k.ring == [] && k.comp == [] && 1 <= k.cfg.compRingSize
    requires 2 <= |k.kernel| && k.kernel[0] == 0 == k.cursor && k.outstanding + k.batched <= k.cfg.frames
    ensures RefusedWithRoom(Kernel(k, Complete(1)), [], false, [])
  {
    hide ExactlyOnce;
    var r := Kernel(k, Complete(1));
    assert r.comp == [k.kernel[1]];
    assert (Outstanding(k) + Batched(k))[0] == 0 && (Outstanding(k) + Batched(k))[1] == k.kernel[1];
    assert 0 in Outstanding(k);
    assert k.status[0] == OnTxQueue;
  }

  lemma TakenAll(s: TxState)
    requires Laden(s, s.cfg.frames) && 2 <= s.cfg.frames
    ensures var k := Run(s, seq(s.cfg.frames, _ => Take));
            && Idle(k, false) && k.ring == [] && k.comp == [] && k.cfg == s.cfg
            && 2 <= |k.kernel| && k.kernel[0] == 0 == k.cursor && k.outstanding + k.batched <= k.cfg.frames
  {
    hide ExactlyOnce;
    hide InOrder;
    FirstIsOldest(s);
    Pigeonhole(Outstanding(s) + Batched(s), s.cfg.frames);
    TakeAll(s, s.cfg.frames);
    OnlyTakes(s, s.cfg.frames);
    RunAgrees(s, seq(s.cfg.frames, _ => Take), false, false);
    var k := Run(s, seq(s.cfg.frames, _ => Take));
    assert k.kernel == Outstanding(k);
  }

  lemma {:induction false} OnlyTakes(s: TxState, k: nat)
    requires WellFormed(s)
    ensures Outstanding(Run(s, seq(k, _ => Take))) == Outstanding(s)
    decreases k
  {
    if k > 0 {
      assert seq(k, _ => Take) == [Take] + seq(k - 1, _ => Take);
      RunFirst(s, Take, seq(k - 1, _ => Take));
      TakeMoves(s);
      OnlyTakes(Kernel(s, Take), k - 1);
    }
  }

  lemma RefusingRun(cfg: TxConfig, content: seq<Payload>) returns (es: seq<Event>)
    requires 2 <= cfg.frames == |content| && 1 <= cfg.compRingSize
    requires 1 <= cfg.batchSize <= cfg.frames && cfg.batchSize <= cfg.txRingSize
    ensures var r := RunAll(Init(cfg, content), es); r.Ok? && RefusedWithRoom(r.s, [], false, [])
  {
    hide Laden;
    hide Idle;
    hide RefusedWithRoom;
    hide Run;
    var s0 := Init(cfg, content);
    es := LadenRun(cfg, content, cfg.frames);
    var s := RunAll(s0, es).s;
    var a := KernelTurn(seq(cfg.frames, _ => Take));
    var k := Step(s, a).s;
    TakenAll(s);
    var b := KernelTurn([Complete(1)] + []);
    RunFirst(k, Complete(1), []);
    SecondCompletes(k);
    NoTurn(Kernel(k, Complete(1)));
    RunAllSum(s0, es, [a] + ([b] + []));
    RunAllFirst(s, a, [b] + []);
    RunAllFirst(k, b, []);
    es := es + ([a] + ([b] + []));
  }

  lemma NoTurn(s: TxState)
    requires WellFormed(s)
    ensures Run(s, []) == s
  {
  }

  // ---------- batch sizes with which nothing is out between calls ----------

  /** Nothing is out; unless the batch has lapped itself the bookkeeping is right. */
  ghost predicate NothingOut(s: TxState) {
    && WellFormed(s) && s.outstanding == 0 && Outstanding(s) == []
    && (forall i :: 0 <= i < s.cfg.frames ==> s.status[i] == Free)
    && (s.batched <= s.cfg.frames ==> Agrees(s, false, false))
  }

  /** A batch that gets full panics or is never submitted. */
  predicate NeverSubmits(cfg: TxConfig) {
    cfg.batchSize == 0 || cfg.frames < cfg.batchSize || cfg.txRingSize < cfg.batchSize
  }

  lemma NothingOutMeans(s: TxState)
    requires Agrees(s, false, false) && s.outstanding == 0
    ensures NothingOut(s)
  {
  }

  lemma NothingOutIdles(s: TxState, turn: Turn)
    requires NothingOut(s)
    ensures Run(s, turn) == s && Harvest(s) == s
    decreases |turn|
  {
    if turn != [] {
      NothingOutIdles(s, turn[1..]);
    }
  }

  lemma SendLeavesNothing(s: TxState, p: Payload, checked: bool, turns: seq<Turn>)
    requires NothingOut(s) && NeverSubmits(s.cfg)
    ensures var r := Send(s, p, checked, turns); !r.NoFreeTxFrames? && (r.Ok? ==> NothingOut(r.s))
  {
    hide Inv;
    hide ExactlyOnce;
    hide Submit;
    NothingOutIdles(s, []);
    var st := Store(s, p);
    if s.batched < s.cfg.frames { StoreAgrees(s, p, false); }
    if 0 < st.batched == s.cfg.batchSize && Contiguous(st) {
      NeverRoom(Mark(st), turns);
    }
  }

  lemma DrainLeavesNothing(s: TxState, turns: seq<Turn>)
    requires WellFormed(s) && NothingOut(s) && Drain(s, turns).Ok?
    ensures NothingOut(Drain(s, turns).s)
  {
    hide Agrees;
    hide NothingOut;
    DrainedIsShort(s, turns);
    DrainAgrees(s, turns, false);
    NothingOutMeans(Drain(s, turns).s);
  }

  lemma DrainedIsShort(s: TxState, turns: seq<Turn>)
    requires NothingOut(s) && Drain(s, turns).Ok?
    ensures Agrees(s, false, false)
  {
    hide Submit;
    NothingOutIdles(s, []);
  }

  lemma {:induction false} RunLeavesNothing(s: TxState, es: seq<Event>)
    requires NothingOut(s) && NeverSubmits(s.cfg)
    ensures RunAll(s, es).Ok? ==> NothingOut(RunAll(s, es).s)
    decreases |es|
  {
    hide NothingOut;
    hide Send;
    hide Drain;
    if es != [] {
      assert WellFormed(s) by { NothingOutFormed(s); }
      match es[0] {
        case SendCall(p, turns) => SendLeavesNothing(s, p, true, turns);
        case SendApplyCall(p, turns) => SendLeavesNothing(s, p, false, turns);
        case DrainCall(turns) => if Drain(s, turns).Ok? { DrainLeavesNothing(s, turns); }
        case KernelTurn(turn) => NothingOutIdles(s, turn);
      }
      var r := Step(s, es[0]);
      if r.Ok? { RunLeavesNothing(r.s, es[1..]); }
    }
  }

  lemma NothingOutFormed(s: TxState)
    requires NothingOut(s)
    ensures WellFormed(s)
  {
  }

  // ---------- exactly which configurations ----------

  /** Some run, with completions in some order, ends where a send is refused although a frame is free,
      exactly when there are two frames or more and full batches can be submitted. */
  lemma RefusalNeedsOrder(cfg: TxConfig, content: seq<Payload>)
    requires 0 < cfg.frames == |content| && 1 <= cfg.compRingSize
    ensures CanRefuseWithRoom(Init(cfg, content)) <==>
              2 <= cfg.frames && 1 <= cfg.batchSize <= cfg.frames && cfg.batchSize <= cfg.txRingSize
  {
    hide RunAll;
    hide RefusedWithRoom;
    hide NothingOut;
    hide Idle;
    var s := Init(cfg, content);
    if NeverSubmits(cfg) {
      NothingOutAtStart(cfg, content);
      forall es: seq<Event>, p: Payload, checked: bool, turns: seq<Turn> | RunAll(s, es).Ok?
        ensures !RefusedWithRoom(RunAll(s, es).s, p, checked, turns)
      {
        RunLeavesNothing(s, es);
        NothingRefused(RunAll(s, es).s, p, checked, turns);
      }
    } else if cfg.frames == 1 {
      IdleAtStart(cfg, content);
      forall es: seq<Event>, p: Payload, checked: bool, turns: seq<Turn> | RunAll(s, es).Ok?
        ensures !RefusedWithRoom(RunAll(s, es).s, p, checked, turns)
      {
        RunAllAgrees(s, es, false);
        SingleFrameRefused(RunAll(s, es).s, p, checked, turns);
      }
    } else {
      var es := RefusingRun(cfg, content);
    }
  }

  lemma NothingOutAtStart(cfg: TxConfig, content: seq<Payload>)
    requires 0 < cfg.frames == |content|
    ensures NothingOut(Init(cfg, content))
  {
    InitAgrees(cfg, content);
  }

  lemma IdleAtStart(cfg: TxConfig, content: seq<Payload>)
    requires cfg.frames == |content| && 1 <= cfg.batchSize <= cfg.frames
    ensures Idle(Init(cfg, content), false)
  {
    InitIdle(cfg, content);
  }

  lemma NothingRefused(s: TxState, p: Payload, checked: bool, turns: seq<Turn>)
    requires NothingOut(s)
    ensures !RefusedWithRoom(s, p, checked, turns)
  {
    NothingOutIdles(s, []);
  }

  lemma SingleFrameRefused(s: TxState, p: Payload, checked: bool, turns: seq<Turn>)
    requires Idle(s, false) && s.cfg.frames == 1
    ensures !RefusedWithRoom(s, p, checked, turns)
  {
    hide ExactlyOnce;
    HarvestInv(s);
    RefusedFrameIsOutstanding(s, p, checked, turns);
  }
}
