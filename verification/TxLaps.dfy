/** Whether a send can be left waiting for room when drain may be called as well. A drain in the middle
    of a batch moves the start of the batches, so whole batches can use every tx frame although the batch
    size does not divide their number, and a full lap of them needs a ring for all tx frames. */
module TxLaps {
  import opened Sequences
  import opened Frames
  import opened TxProtocol
  import opened TxInvariant
  import opened TxTheorems
  import opened TxPanics
  import opened TxWaits
  import D = TxDrains

  /** Whatever calls have returned before, drains included, and whatever the kernel did: no send is left
      in its loop after an attempt. */
  ghost predicate NeverWaitsAfter(s: TxState)
    requires WellFormed(s)
  {
    forall es: seq<Event>, p: Payload, checked: bool, turns: seq<Turn> | RunAll(s, es).Ok? && turns != [] ::
      !Send(RunAll(s, es).s, p, checked, turns).Spinning?
  }

  lemma NoWaitWithRoom(cfg: TxConfig, content: seq<Payload>, es: seq<Event>, p: Payload, checked: bool,
                       turns: seq<Turn>)
    requires 0 < cfg.frames == |content| && turns != []
    requires cfg.batchSize == 0 || cfg.frames < cfg.batchSize || cfg.frames <= cfg.txRingSize
    requires RunAll(Init(cfg, content), es).Ok?
    ensures !Send(RunAll(Init(cfg, content), es).s, p, checked, turns).Spinning?
  {
    hide Inv;
    hide ExactlyOnce;
    hide InOrder;
    hide InWindow;
    hide Send;
    hide RunAll;
    var s := Init(cfg, content);
    var r := RunAll(s, es).s;
    if cfg.batchSize == 0 || cfg.frames < cfg.batchSize {
      NoBatchLeaves(r, p, checked, turns);
    } else {
      InitIdle(cfg, content);
      WeakerOrder(s);
      RunAllAgrees(s, es, false);
      SendDoesNotWait(r, p, checked, turns);
    }
  }

  lemma WeakerOrder(s: TxState)
    requires Idle(s, true)
    ensures Idle(s, false)
  {
  }

  // ---------- counting frames ----------

  /** o frames are on the tx ring, j in the batch, and nothing is in the kernel or completed. */
  ghost predicate Level(s: TxState, o: nat, j: nat, c: nat) {
    && WellFormed(s) && Idle(s, true) && s.kernel == [] && s.comp == []
    && s.outstanding == o && s.batched == j && s.cursor == c
  }

  lemma LevelRing(s: TxState, o: nat, j: nat, c: nat)
    requires Level(s, o, j, c)
    ensures |s.ring| == o && 1 <= s.cfg.batchSize <= s.cfg.frames && j < s.cfg.batchSize
  {
  }

  /** es leads from s to t, with the same configuration. */
  ghost predicate Leads(s: TxState, es: seq<Event>, t: TxState) {
    WellFormed(s) && RunAll(s, es) == Ok(t, []) && t.cfg == s.cfg
  }

  lemma LeadsNowhere(s: TxState)
    requires WellFormed(s)
    ensures Leads(s, [], s)
  {
  }

  lemma LeadsOn(s: TxState, a: seq<Event>, t: TxState, b: seq<Event>, u: TxState)
    requires Leads(s, a, t) && Leads(t, b, u)
    ensures Leads(s, a + b, u)
  {
    hide RunAll;
    RunAllSum(s, a, b);
  }

  lemma LeadsOne(s: TxState, e: Event)
    requires WellFormed(s) && Step(s, e).Ok?
    ensures Leads(s, [e], Step(s, e).s)
  {
    hide Step;
    RunAllFirst(s, e, []);
    assert [e] + [] == [e];
  }

  // ---------- sends while the kernel idles ----------

  lemma KeepsEmpty(s: TxState, p: Payload)
    requires WellFormed(s) && s.kernel == []
    ensures Store(Harvest(s), p).kernel == [] && Store(Harvest(s), p).ring == s.ring
  {
  }

  /** A send that does not fill the batch. */
  lemma LevelSend(s: TxState, o: nat, j: nat, c: nat)
    requires Level(s, o, j, c) && o + j < s.cfg.frames && j + 1 < s.cfg.batchSize
    ensures Step(s, IdleSend()).Ok? && Step(s, IdleSend()).s.cfg == s.cfg
    ensures Level(Step(s, IdleSend()).s, o, j + 1, Wrap(c + 1, s.cfg.frames))
  {
    hide Inv;
    hide ExactlyOnce;
    hide InOrder;
    hide InWindow;
    hide Send;
    hide Harvest;
    hide Store;
    AcceptedSend(s, [[]]);
    KeepsEmpty(s, []);
  }

  /** A send that fills the batch, where the batch does not straddle the end. */
  lemma LevelFull(s: TxState, o: nat, j: nat, c: nat)
    requires Level(s, o, j, c) && o + j < s.cfg.frames && j + 1 == s.cfg.batchSize
    requires var end := Wrap(c + 1, s.cfg.frames); end == 0 || j + 1 <= end
    ensures var r := Step(s, IdleSend());
            if o + j + 1 > s.cfg.txRingSize then r.Spinning?
            else r.Ok? && r.s.cfg == s.cfg && Level(r.s, o + j + 1, 0, Wrap(c + 1, s.cfg.frames))
  {
    hide Inv;
    hide ExactlyOnce;
    hide InOrder;
    hide InWindow;
    hide Send;
    hide Harvest;
    hide Store;
    hide PutBatch;
    AcceptedSend(s, [[]]);
    KeepsEmpty(s, []);
    LevelRing(s, o, j, c);
    var st := Store(Harvest(s), []);
    OneAttempt(st);
    FullBatchAgrees(st);
  }

  lemma FullBatchAgrees(st: TxState)
    requires Agrees(st, false, true) && 0 < st.batched == st.cfg.batchSize && Contiguous(st)
    ensures var e := Enqueue(Mark(st));
            && Idle(e, true) && e.kernel == st.kernel && e.comp == st.comp && e.cfg == st.cfg && e.cursor == st.cursor
            && e.batched == 0 && e.outstanding == st.outstanding + st.batched
    ensures HasRoom(Mark(st)) <==> |st.ring| + st.batched <= st.cfg.txRingSize
  {
    hide Inv;
    hide ExactlyOnce;
    hide InOrder;
    hide InWindow;
    hide Slice;
    MarkAgrees(st, true);
    EnqueueAgrees(Mark(st), true);
  }

  /** j more payloads in the batch. */
  lemma {:induction false} Pile(s: TxState, o: nat, c: nat, j: nat) returns (es: seq<Event>, t: TxState)
    requires Level(s, o, 0, c) && o + j <= s.cfg.frames && j < s.cfg.batchSize && c + j < s.cfg.frames
    ensures Leads(s, es, t) && Level(t, o, j, c + j)
    decreases j
  {
    hide Idle;
    hide Step;
    hide RunAll;
    if j == 0 {
      es, t := [], s;
      LeadsNowhere(s);
    } else {
      es, t := Pile(s, o, c, j - 1);
      LevelSend(t, o, j - 1, c + j - 1);
      LeadsOne(t, IdleSend());
      LeadsOn(s, es, t, [IdleSend()], Step(t, IdleSend()).s);
      es, t := es + [IdleSend()], Step(t, IdleSend()).s;
    }
  }

  /** One whole batch, up to the end of tx_frames at most. */
  lemma OneBatch(s: TxState, o: nat, c: nat) returns (es: seq<Event>, t: TxState)
    requires Level(s, o, 0, c) && o + s.cfg.batchSize <= s.cfg.frames && o + s.cfg.batchSize <= s.cfg.txRingSize
    requires c + s.cfg.batchSize <= s.cfg.frames
    ensures Leads(s, es, t) && Level(t, o + s.cfg.batchSize, 0, Wrap(c + s.cfg.batchSize, s.cfg.frames))
  {
    hide Idle;
    hide Step;
    hide RunAll;
    LevelRing(s, o, 0, c);
    var b := s.cfg.batchSize;
    es, t := Pile(s, o, c, b - 1);
    LevelFull(t, o, b - 1, c + b - 1);
    LeadsOne(t, IdleSend());
    LeadsOn(s, es, t, [IdleSend()], Step(t, IdleSend()).s);
    es, t := es + [IdleSend()], Step(t, IdleSend()).s;
  }

  /** m whole batches, which end where tx_frames does. */
  lemma {:induction false} Batches(s: TxState, o: nat, c: nat, m: nat) returns (es: seq<Event>, t: TxState)
    requires Level(s, o, 0, c) && 0 < m && c + Times(m, s.cfg.batchSize) == s.cfg.frames
    requires o + Times(m, s.cfg.batchSize) <= s.cfg.frames && o + Times(m, s.cfg.batchSize) <= s.cfg.txRingSize
    ensures Leads(s, es, t) && Level(t, o + Times(m, s.cfg.batchSize), 0, 0)
    decreases m
  {
    hide Idle;
    hide RunAll;
    hide Times;
    LevelRing(s, o, 0, c);
    var b := s.cfg.batchSize;
    LastTimes(m, b);
    es, t := OneBatch(s, o, c);
    if m > 1 {
      var es', t' := Batches(t, o + b, c + b, m - 1);
      LeadsOn(s, es, t, es', t');
      es, t := es + es', t';
    }
  }

  lemma LastTimes(m: nat, b: nat)
    requires 0 < m
    ensures Times(m, b) == b + Times(m - 1, b) && Times(0, b) == 0
    ensures m > 1 && 0 < b ==> 0 < Times(m - 1, b)
  {
    TimesNext(m - 1, m, b);
    if m > 1 { TimesNext(0, m - 1, b); }
  }

  // ---------- a drain in the middle of a batch ----------

  function Busy(n: nat): seq<Turn> { if n == 0 then [] else [Nudge()] + Busy(n - 1) }

  lemma {:induction false} BusyIsProductive(n: nat)
    ensures D.ProductiveTurns(Busy(n)) == n && FifoTurns(Busy(n))
  {
    if n > 0 {
      BusyIsProductive(n - 1);
      assert Busy(n)[1..] == Busy(n - 1) && Busy(n)[0] == Nudge();
      assert Take in Nudge() && Complete(0) in Nudge();
    }
  }

  lemma LevelDrain(s: TxState, j: nat, c: nat) returns (e: Event)
    requires Level(s, 0, j, c) && j <= c
    requires s.cfg.batchSize <= s.cfg.txRingSize && 1 <= s.cfg.compRingSize
    ensures Step(s, e).Ok? && Step(s, e).s.cfg == s.cfg && Level(Step(s, e).s, 0, 0, c)
  {
    hide Inv;
    hide ExactlyOnce;
    hide InOrder;
    hide InWindow;
    hide Drain;
    hide D.Load;
    var turns := Busy(D.Load(s) + 1);
    BusyIsProductive(D.Load(s) + 1);
    WeakerOrder(s);
    D.DrainEndsWhenProductive(s, turns);
    DrainedBatchCannotPanic(s, turns);
    DrainEmpties(s, turns, true);
    DrainAgrees(s, turns, true);
    e := DrainCall(turns);
  }

  // ---------- the second lap ----------

  lemma NudgeLevel(s: TxState, o: nat, j: nat, c: nat)
    requires Level(s, o, j, c) && 0 < o && 1 <= s.cfg.compRingSize
    ensures var k := Run(s, Nudge());
            && Idle(k, true) && k.kernel == [] && |k.comp| == 1 && |k.ring| == o - 1
            && k.outstanding == o && k.batched == j && k.cursor == c && k.cfg == s.cfg
  {
    hide ExactlyOnce;
    hide InOrder;
    hide InWindow;
    OneCompletion(s);
    RunFirst(s, Take, [Complete(0)] + []);
    RunFirst(Kernel(s, Take), Complete(0), []);
  }

  /** The kernel completes one frame and one payload is sent into the batch. */
  lemma LapSend(s: TxState, o: nat, j: nat, c: nat)
    requires Level(s, o, j, c) && 0 < o && 1 <= s.cfg.compRingSize
    requires o + j <= s.cfg.frames && j + 1 < s.cfg.batchSize
    ensures var r := Step(Run(s, Nudge()), IdleSend());
            r.Ok? && r.s.cfg == s.cfg && Level(r.s, o - 1, j + 1, Wrap(c + 1, s.cfg.frames))
  {
    hide Inv;
    hide ExactlyOnce;
    hide InOrder;
    hide InWindow;
    hide Run;
    hide Send;
    hide Harvest;
    hide Store;
    NudgeLevel(s, o, j, c);
    var k := Run(s, Nudge());
    AcceptedSend(k, [[]]);
    KeepsEmpty(k, []);
  }

  /** The same when that fills the batch, and the ring has no room for it. */
  lemma LapFull(s: TxState, o: nat, j: nat, c: nat)
    requires Level(s, o, j, c) && 0 < o && 1 <= s.cfg.compRingSize
    requires o + j <= s.cfg.frames && j + 1 == s.cfg.batchSize
    requires var end := Wrap(c + 1, s.cfg.frames); end == 0 || j + 1 <= end
    requires o + j > s.cfg.txRingSize
    ensures Send(Run(s, Nudge()), [], false, [[]]).Spinning?
  {
    hide Inv;
    hide ExactlyOnce;
    hide InOrder;
    hide InWindow;
    hide Run;
    hide Send;
    hide Harvest;
    hide Store;
    hide PutBatch;
    NudgeLevel(s, o, j, c);
    var k := Run(s, Nudge());
    AcceptedSend(k, [[]]);
    KeepsEmpty(k, []);
    var st := Store(Harvest(k), []);
    OneAttempt(st);
    FullBatchAgrees(st);
  }

  /** From a lap that left only the first frames free: each further payload takes the place of one
      completed frame, and the batch that they fill finds no room. */
  lemma {:induction false} SecondLap(s: TxState, o: nat, j: nat) returns (es: seq<Event>, t: TxState)
    requires Level(s, o, j, j) && o + j == s.cfg.frames && s.cfg.txRingSize < s.cfg.frames
    requires s.cfg.batchSize <= o + j && 1 <= s.cfg.compRingSize
    ensures Leads(s, es, t) && Send(t, [], false, [[]]).Spinning?
    decreases s.cfg.batchSize - j
  {
    hide Idle;
    hide Step;
    hide Run;
    hide RunAll;
    hide Send;
    LevelRing(s, o, j, j);
    var nudge := KernelTurn(Nudge());
    NudgeStep(s);
    LeadsOne(s, nudge);
    es, t := [nudge], Run(s, Nudge());
    if j + 1 == s.cfg.batchSize {
      LapFull(s, o, j, j);
    } else {
      LapSend(s, o, j, j);
      LeadsOne(t, IdleSend());
      LeadsOn(s, es, t, [IdleSend()], Step(t, IdleSend()).s);
      es, t := es + [IdleSend()], Step(t, IdleSend()).s;
      var es', t' := SecondLap(t, o - 1, j + 1);
      LeadsOn(s, es, t, es', t');
      es, t := es + es', t';
    }
  }

  lemma NudgeStep(s: TxState)
    requires WellFormed(s)
    ensures Step(s, KernelTurn(Nudge())) == Ok(Run(s, Nudge()), []) && Run(s, Nudge()).cfg == s.cfg
  {
    hide Run;
  }

  /** A partial batch is drained, whole batches fill the rest of tx_frames, and the next batch waits. */
  lemma WaitsInSecondLap(s: TxState, m: nat, r: nat) returns (es: seq<Event>, t: TxState)
    requires Level(s, 0, 0, 0) && 0 < m && 0 < r < s.cfg.batchSize && s.cfg.frames == r + Times(m, s.cfg.batchSize)
    requires Times(m, s.cfg.batchSize) <= s.cfg.txRingSize < s.cfg.frames && 1 <= s.cfg.compRingSize
    ensures Leads(s, es, t) && Send(t, [], false, [[]]).Spinning?
  {
    hide Idle;
    hide Step;
    hide RunAll;
    hide Send;
    hide Times;
    var b := s.cfg.batchSize;
    LastTimes(m, b);
    var es1, s1 := Pile(s, 0, 0, r);
    var e := LevelDrain(s1, r, r);
    LeadsOne(s1, e);
    var s2 := Step(s1, e).s;
    LeadsOn(s, es1, s1, [e], s2);
    var es3, s3 := Batches(s2, 0, r, m);
    LeadsOn(s, es1 + [e], s2, es3, s3);
    var es4, s4 := Pile(s3, Times(m, b), 0, r);
    LeadsOn(s, es1 + [e] + es3, s3, es4, s4);
    var es5, s5 := SecondLap(s4, Times(m, b), r);
    LeadsOn(s, es1 + [e] + es3 + es4, s4, es5, s5);
    es, t := es1 + [e] + es3 + es4 + es5, s5;
  }

  // ---------- exactly when a send can wait ----------

  /** The last send of a run that spins, and the run before it. */
  lemma {:induction false} LastSend(s: TxState, es: seq<Event>) returns (k: nat)
    requires WellFormed(s) && SendsWithTurns(es) && RunAll(s, es).Spinning?
    ensures k < |es| && RunAll(s, es[..k]).Ok? && !es[k].KernelTurn? && !es[k].DrainCall? && es[k].turns != []
    ensures Step(RunAll(s, es[..k]).s, es[k]).Spinning?
    decreases |es|
  {
    hide Step;
    var r := Step(s, es[0]);
    if r.Spinning? {
      k := 0;
      KernelReturns(s, es[0]);
      assert es[..0] == [];
    } else {
      var j := LastSend(r.s, es[1..]);
      k := j + 1;
      assert es[..k] == [es[0]] + es[1..][..j];
      RunAllFirst(s, es[0], es[1..][..j]);
    }
  }

  lemma KernelReturns(s: TxState, e: Event)
    requires WellFormed(s)
    ensures e.KernelTurn? ==> Step(s, e).Ok?
  {
  }

  /** In runs with drains anywhere, a send can be left waiting for the kernel exactly when a batch can
      leave and the tx ring cannot hold all tx frames. */
  lemma SubmissionNeverWaitsWithDrains(cfg: TxConfig, content: seq<Payload>)
    requires 0 < cfg.frames == |content| && 1 <= cfg.compRingSize
    ensures NeverWaitsAfter(Init(cfg, content)) <==>
              cfg.batchSize == 0 || cfg.frames < cfg.batchSize || cfg.frames <= cfg.txRingSize
  {
    hide RunAll;
    hide Send;
    hide InWholeBatches;
    var s := Init(cfg, content);
    if cfg.batchSize == 0 || cfg.frames < cfg.batchSize || cfg.frames <= cfg.txRingSize {
      forall es: seq<Event>, p: Payload, checked: bool, turns: seq<Turn> | RunAll(s, es).Ok? && turns != []
        ensures !Send(RunAll(s, es).s, p, checked, turns).Spinning?
      {
        NoWaitWithRoom(cfg, content, es, p, checked, turns);
      }
    } else if InWholeBatches(cfg) <= cfg.txRingSize {
      var m, r := Split(cfg);
      InitLevel(cfg, content);
      var es, t := WaitsInSecondLap(s, m, r);
      assert !NeverWaitsAfter(s);
    } else {
      WaitsWithoutDrains(cfg, content);
    }
  }

  lemma InitLevel(cfg: TxConfig, content: seq<Payload>)
    requires 0 < cfg.frames == |content| && 1 <= cfg.batchSize <= cfg.frames
    ensures Level(Init(cfg, content), 0, 0, 0)
  {
    hide Inv;
    hide ExactlyOnce;
    hide InOrder;
    hide InWindow;
    InitIdle(cfg, content);
  }

  lemma Split(cfg: TxConfig) returns (m: nat, r: nat)
    requires 1 <= cfg.batchSize <= cfg.frames && InWholeBatches(cfg) <= cfg.txRingSize < cfg.frames
    ensures 0 < m && 0 < r < cfg.batchSize && cfg.frames == r + Times(m, cfg.batchSize)
    ensures Times(m, cfg.batchSize) <= cfg.txRingSize
  {
    var n, b := cfg.frames, cfg.batchSize;
    m, r := n / b, n % b;
    assert n == m * b + r;
    assert 0 * b == 0 && m != 0;
  }

  lemma WaitsWithoutDrains(cfg: TxConfig, content: seq<Payload>)
    requires 0 < cfg.frames == |content| && cfg.batchSize != 0 && cfg.txRingSize < InWholeBatches(cfg)
    ensures !NeverWaitsAfter(Init(cfg, content))
  {
    hide RunAll;
    hide Send;
    hide InWholeBatches;
    var s := Init(cfg, content);
    SubmissionNeverWaits(cfg, content);
    var es :| SendsWithTurns(es) && RunAll(s, es).Spinning?;
    var k := LastSend(s, es);
    match es[k] {
      case SendCall(p, turns) => assert Send(RunAll(s, es[..k]).s, p, true, turns).Spinning?;
      case SendApplyCall(p, turns) => assert Send(RunAll(s, es[..k]).s, p, false, turns).Spinning?;
    }
  }
}
