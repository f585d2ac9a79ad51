/** When the submission loop of put_batch_on_tx_queue has to wait for the kernel, in runs without drain. */
module TxWaits {
  import opened Sequences
  import opened Frames
  import opened TxProtocol
  import opened TxInvariant
  import opened TxTheorems

  /** Sends, each of which gives its loop at least one attempt, and kernel turns. */
  predicate SendsWithTurns(es: seq<Event>) {
    forall k :: 0 <= k < |es| ==> !es[k].DrainCall? && (es[k].KernelTurn? || es[k].turns != [])
  }

  /** In runs without drain no send is left in its loop after its attempts, whatever the kernel does. */
  ghost predicate NeverWaits(s: TxState)
    requires WellFormed(s)
  {
    forall es :: SendsWithTurns(es) ==> !RunAll(s, es).Spinning?
  }

  // ---------- a tx ring that holds all tx frames ----------

  lemma SendDoesNotWait(s: TxState, p: Payload, checked: bool, turns: seq<Turn>)
    requires Idle(s, false) && s.cfg.frames <= s.cfg.txRingSize && turns != []
    ensures !Send(s, p, checked, turns).Spinning?
  {
    hide ExactlyOnce;
    hide InOrder;
    hide InWindow;
    HarvestAgrees(s, false);
    var h := Harvest(s);
    if h.status[h.cursor] == Free {
      StoreAgrees(h, p, false);
      var st := Store(h, p);
      if Contiguous(st) { SubmissionDoesNotWait(st, turns); }
    }
  }

  lemma {:induction false} SendsDoNotWait(s: TxState, es: seq<Event>)
    requires Idle(s, false) && s.cfg.frames <= s.cfg.txRingSize && SendsWithTurns(es)
    ensures !RunAll(s, es).Spinning?
    decreases |es|
  {
    hide Inv;
    hide ExactlyOnce;
    hide InOrder;
    hide InWindow;
    hide Send;
    if es != [] {
      match es[0] {
        case SendCall(p, turns) => SendDoesNotWait(s, p, true, turns);
        case SendApplyCall(p, turns) => SendDoesNotWait(s, p, false, turns);
        case KernelTurn(turn) =>
      }
      StepAgrees(s, es[0], false);
      var r := Step(s, es[0]);
      if !r.Panicked? { SendsDoNotWait(r.s, es[1..]); }
    }
  }

  // ---------- a smaller one, and a kernel that idles ----------

  /** One send during which the kernel does nothing. */
  function IdleSend(): Event { SendApplyCall([], [[]]) }

  /** m frames are on the tx ring and j more are in the batch; the kernel has done nothing. */
  ghost predicate Stacked(s: TxState, m: nat, j: nat) {
    && WellFormed(s) && s.kernel == [] && s.comp == []
    && s.ring == Interval(0, m) && s.batched == j < s.cfg.batchSize && s.cursor == m + j < s.cfg.frames
    && forall i {:trigger s.status[i]} :: m <= i < s.cfg.frames ==> s.status[i] == Free
  }

  lemma StackedSend(s: TxState, m: nat, j: nat)
    requires Stacked(s, m, j)
    ensures var st := Store(s, []);
            && (Step(s, IdleSend()) == if st.batched == s.cfg.batchSize then PutBatch(st, [[]]) else Ok(st, [[]]))
            && (j + 1 == s.cfg.batchSize ==> Contiguous(st) && Slice(st) == Interval(m, m + j + 1))
  {
    hide PutBatch;
    assert Harvest(s) == s;
  }

  lemma StackOne(s: TxState, m: nat, j: nat)
    requires Stacked(s, m, j) && j + 1 < s.cfg.batchSize && m + j + 1 < s.cfg.frames
    ensures var r := Step(s, IdleSend()); r.Ok? && r.s.cfg == s.cfg && Stacked(r.s, m, j + 1)
  {
    hide Step;
    StackedSend(s, m, j);
  }

  lemma OneAttempt(st: TxState)
    requires WellFormed(st) && 0 < st.batched && Contiguous(st)
    ensures PutBatch(st, [[]]) == if HasRoom(Mark(st)) then Ok(Enqueue(Mark(st)), []) else Spinning(Mark(st))
  {
    hide Mark;
    hide Enqueue;
    var s, turns := Mark(st), [[]];
    assert turns[1..] == [] && Run(s, turns[0]) == s;
  }

  lemma MarkKeepsSlice(s: TxState)
    requires WellFormed(s) && Contiguous(s)
    ensures Contiguous(Mark(s)) && Slice(Mark(s)) == Slice(s)
  {
  }

  lemma IntervalJoin(lo: nat, mid: nat, hi: nat)
    requires lo <= mid <= hi
    ensures Interval(lo, mid) + Interval(mid, hi) == Interval(lo, hi)
  {
  }

  /** A full batch goes out if there is room for it and waits if there is not. */
  lemma StackFull(s: TxState, m: nat)
    requires 0 < s.cfg.batchSize && Stacked(s, m, s.cfg.batchSize - 1) && m + s.cfg.batchSize <= s.cfg.frames
    ensures var r := Step(s, IdleSend());
            if m + s.cfg.batchSize > s.cfg.txRingSize then r.Spinning?
            else m + s.cfg.batchSize < s.cfg.frames ==>
                   r.Ok? && r.s.cfg == s.cfg && Stacked(r.s, m + s.cfg.batchSize, 0)
  {
    hide PutBatch;
    hide Step;
    hide Slice;
    hide Interval;
    var b := s.cfg.batchSize;
    StackedSend(s, m, b - 1);
    var st := Store(s, []);
    OneAttempt(st);
    MarkKeepsSlice(st);
    IntervalJoin(0, m, m + b);
  }

  /** So with an idle kernel some send waits before the frames run out. */
  lemma {:induction false} WaitsEventually(s: TxState, k: nat, c: nat, j: nat) returns (es: seq<Event>)
    requires Stacked(s, k * s.cfg.batchSize, j) && k < c && c * s.cfg.batchSize <= s.cfg.frames
    requires s.cfg.txRingSize < c * s.cfg.batchSize
    ensures SendsWithTurns(es) && RunAll(s, es).Spinning?
    decreases s.cfg.frames - s.cursor
  {
    hide Step;
    hide Stacked;
    Unstack(s, k * s.cfg.batchSize, j);
    var b, e := s.cfg.batchSize, IdleSend();
    NextMultipleFits(k, c, b);
    var rest := [];
    if j + 1 < b {
      StackOne(s, k * b, j);
      Unstack(Step(s, e).s, k * b, j + 1);
      rest := WaitsEventually(Step(s, e).s, k, c, j + 1);
    } else {
      StackFull(s, k * b);
      if (k + 1) * b <= s.cfg.txRingSize {
        Unstack(Step(s, e).s, (k + 1) * b, 0);
        rest := WaitsEventually(Step(s, e).s, k + 1, c, 0);
      }
    }
    RunAllFirst(s, e, rest);
    es := [e] + rest;
  }

  lemma Unstack(s: TxState, m: nat, j: nat)
    requires Stacked(s, m, j)
    ensures WellFormed(s) && s.batched == j < s.cfg.batchSize && s.cursor == m + j < s.cfg.frames
  {
  }

  lemma NextMultipleFits(k: nat, c: nat, b: nat)
    requires k < c
    ensures k * b + b == (k + 1) * b <= c * b
    ensures (k + 1) * b < c * b ==> k + 1 < c
  {
    if k + 1 < c {
      MultiplesGrow(k + 1, c - (k + 1), b);
    }
  }

  lemma MultiplesGrow(k: nat, d: nat, b: nat)
    ensures k * b <= (k + d) * b
  {
    assert (k + d) * b == k * b + d * b;
    assert 0 <= d * b;
  }

  // ---------- batches that do not divide tx_frames ----------

  // The batch that would lap the end panics, so only the first lap submits anything: as many frames
  // as there are in whole batches.

  /** No batch ever leaves: size 0 is never reached, and one larger than tx_frames underflows. */
  lemma NoBatchLeaves(s: TxState, p: Payload, checked: bool, turns: seq<Turn>)
    requires WellFormed(s) && (s.cfg.batchSize == 0 || s.cfg.frames < s.cfg.batchSize)
    ensures !Send(s, p, checked, turns).Spinning?
  {
  }

  /** The frames of k batches. */
  function Times(k: nat, b: nat): nat { k * b }

  lemma TimesNext(k: nat, c: nat, b: nat)
    requires k <= c
    ensures Times(k, b) <= Times(c, b)
    ensures k < c ==> Times(k, b) + b == Times(k + 1, b) <= Times(c, b)
    ensures 0 < c ==> b <= Times(c, b)
  {
    MultiplesGrow(k, c - k, b);
    if k < c { NextMultipleFits(k, c, b); }
    if 0 < c { MultiplesGrow(1, c - 1, b); }
  }

  /** The first c batches fit in tx_frames and on the ring, and no more fit in tx_frames. */
  ghost predicate Fit(cfg: TxConfig, c: nat) {
    && 0 < c && Times(c, cfg.batchSize) < cfg.frames < Times(c, cfg.batchSize) + cfg.batchSize
    && Times(c, cfg.batchSize) <= cfg.txRingSize
  }

  /** In the first lap: k batches of c have been submitted, and they and the current one put the
      cursor where it is. */
  ghost predicate FirstLap(s: TxState, k: nat, c: nat) {
    && WellFormed(s) && Fit(s.cfg, c) && k <= c && |s.ring| <= Times(k, s.cfg.batchSize)
    && Times(k, s.cfg.batchSize) + s.batched < 2 * s.cfg.frames
    && s.cursor == Wrap(Times(k, s.cfg.batchSize) + s.batched, s.cfg.frames)
  }

  lemma {:induction false} TurnOnlyTakes(s: TxState, turn: Turn)
    requires WellFormed(s)
    ensures |Run(s, turn).ring| <= |s.ring|
    decreases |turn|
  {
    if turn != [] {
      TurnOnlyTakes(Kernel(s, turn[0]), turn[1..]);
    }
  }

  /** A full batch of the first lap finds room at the first attempt; the one after it panics. */
  lemma FirstLapPutBatch(s: TxState, k: nat, c: nat, turns: seq<Turn>)
    requires FirstLap(s, k, c) && 0 < s.batched == s.cfg.batchSize && turns != []
    ensures var r := PutBatch(s, turns);
            if k == c then r.Panicked? else r.Ok? && r.s.cfg == s.cfg && FirstLap(r.s, k + 1, c)
  {
    hide Run;
    hide Slice;
    hide Times;
    TimesNext(k, c, s.cfg.batchSize);
    if k < c {
      TurnOnlyTakes(Mark(s), turns[0]);
    }
  }

  lemma FirstLapStore(s: TxState, p: Payload, k: nat, c: nat)
    requires FirstLap(s, k, c) && s.batched < s.cfg.batchSize
    ensures FirstLap(Store(s, p), k, c)
  {
    hide Times;
    TimesNext(k, c, s.cfg.batchSize);
  }

  lemma FirstLapSend(s: TxState, p: Payload, checked: bool, turns: seq<Turn>, k: nat, c: nat) returns (k': nat)
    requires FirstLap(s, k, c) && s.batched < s.cfg.batchSize && turns != []
    ensures var r := Send(s, p, checked, turns);
            r.Panicked? || (!r.Spinning? && r.s.cfg == s.cfg && FirstLap(r.s, k', c) && r.s.batched < s.cfg.batchSize)
  {
    hide PutBatch;
    hide Times;
    hide Fit;
    var st := Store(Harvest(s), p);
    FirstLapStore(Harvest(s), p, k, c);
    k' := k;
    if st.batched == s.cfg.batchSize && Send(s, p, checked, turns) == PutBatch(st, turns) {
      FirstLapPutBatch(st, k, c, turns);
      k' := k + 1;
    }
  }

  lemma {:induction false} FirstLapDoesNotWait(s: TxState, es: seq<Event>, k: nat, c: nat)
    requires WellFormed(s) && FirstLap(s, k, c) && s.batched < s.cfg.batchSize && SendsWithTurns(es)
    ensures !RunAll(s, es).Spinning?
    decreases |es|
  {
    hide FirstLap;
    hide Send;
    if es != [] {
      var k' := k;
      match es[0] {
        case SendCall(p, turns) => k' := FirstLapSend(s, p, true, turns, k, c);
        case SendApplyCall(p, turns) => k' := FirstLapSend(s, p, false, turns, k, c);
        case KernelTurn(turn) => FirstLapTurn(s, turn, k, c);
      }
      var r := Step(s, es[0]);
      if !r.Panicked? {
        FirstLapDoesNotWait(r.s, es[1..], k', c);
      }
    }
  }

  lemma FirstLapTurn(s: TxState, turn: Turn, k: nat, c: nat)
    requires FirstLap(s, k, c)
    ensures FirstLap(Run(s, turn), k, c)
  {
    hide Times;
    hide Fit;
    TurnOnlyTakes(s, turn);
  }

  // ---------- exactly when a send can wait ----------

  /** The tx frames that whole batches use. */
  function InWholeBatches(cfg: TxConfig): nat
    requires cfg.batchSize != 0
  {
    (cfg.frames / cfg.batchSize) * cfg.batchSize
  }

  lemma {:induction false} NoBatchRun(s: TxState, es: seq<Event>)
    requires WellFormed(s) && (s.cfg.batchSize == 0 || s.cfg.frames < s.cfg.batchSize) && SendsWithTurns(es)
    ensures !RunAll(s, es).Spinning?
    decreases |es|
  {
    hide Send;
    if es != [] {
      match es[0] {
        case SendCall(p, turns) => NoBatchLeaves(s, p, true, turns);
        case SendApplyCall(p, turns) => NoBatchLeaves(s, p, false, turns);
        case KernelTurn(turn) =>
      }
      var r := Step(s, es[0]);
      if !r.Panicked? { NoBatchRun(r.s, es[1..]); }
    }
  }

  lemma InFirstLap(cfg: TxConfig, content: seq<Payload>, c: nat)
    requires 0 < cfg.frames == |content| && 0 < cfg.batchSize <= cfg.frames
    requires c * cfg.batchSize < cfg.frames < c * cfg.batchSize + cfg.batchSize && c * cfg.batchSize <= cfg.txRingSize
    ensures FirstLap(Init(cfg, content), 0, c)
  {
    assert 0 * cfg.batchSize == 0;
  }

  lemma DoesNotWait(cfg: TxConfig, content: seq<Payload>, es: seq<Event>)
    requires 0 < cfg.frames == |content| && SendsWithTurns(es)
    requires cfg.batchSize == 0 || InWholeBatches(cfg) <= cfg.txRingSize
    ensures !RunAll(Init(cfg, content), es).Spinning?
  {
    var s, b, n := Init(cfg, content), cfg.batchSize, cfg.frames;
    if b == 0 || n < b {
      NoBatchRun(s, es);
    } else {
      var c, r := n / b, n % b;
      assert n == c * b + r;
      if r == 0 {
        InitIdle(cfg, content);
        SendsDoNotWait(s, es);
      } else {
        InFirstLap(cfg, content, c);
        FirstLapDoesNotWait(s, es, 0, c);
      }
    }
  }

  /** In runs without drain a send can be left waiting for the kernel exactly when the tx ring cannot
      hold the tx frames that whole batches use. */
  lemma SubmissionNeverWaits(cfg: TxConfig, content: seq<Payload>)
    requires 0 < cfg.frames == |content|
    ensures NeverWaits(Init(cfg, content)) <==> cfg.batchSize == 0 || InWholeBatches(cfg) <= cfg.txRingSize
  {
    var s, b, n := Init(cfg, content), cfg.batchSize, cfg.frames;
    if b == 0 || InWholeBatches(cfg) <= cfg.txRingSize {
      forall es | SendsWithTurns(es) ensures !RunAll(s, es).Spinning? {
        DoesNotWait(cfg, content, es);
      }
    } else {
      var c := n / b;
      assert n == c * b + n % b;
      assert 0 * b == 0 && c != 0;
      assert Stacked(s, 0, 0);
      var es := WaitsEventually(s, 0, c, 0);
    }
  }
}
