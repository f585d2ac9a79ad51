/** That drain ends. Nothing is asked of a kernel turn: it may take, complete, do both or idle, in any
    order. A turn that changes anything brings the pipeline a step further, and as long as drain spins
    the kernel has something it can do; so drain ends unless the kernel stops doing anything. */
module TxDrains {
  import opened Sequences
  import opened Frames
  import opened TxProtocol
  import opened TxInvariant
  import opened TxTheorems

  /** Steps the pipeline still has to go through. */
  function Load(s: TxState): nat { 4 * s.batched + 3 * |s.ring| + 2 * |s.kernel| + |s.comp| }

  // ---------- every turn that does something is progress ----------

  lemma {:induction false} TurnLightens(s: TxState, turn: Turn)
    requires WellFormed(s)
    ensures Load(Run(s, turn)) <= Load(s)
    ensures Run(s, turn) != s ==> Load(Run(s, turn)) < Load(s)
    decreases |turn|
  {
    if turn != [] {
      var k := Kernel(s, turn[0]);
      TurnLightens(k, turn[1..]);
      if k != s {
        assert Load(k) < Load(s);
      }
    }
  }

  function Moved(s: TxState, r: TxState): nat { if s == r then 0 else 1 }

  /** The turns of the submission loop in which the kernel did something. */
  function SubmitWork(s: TxState, turns: seq<Turn>): nat
    requires WellFormed(s) && Contiguous(s)
    decreases |turns|
  {
    if turns == [] then 0 else
      var s1 := Run(s, turns[0]);
      Moved(s, s1) + if HasRoom(s1) then 0 else SubmitWork(s1, turns[1..])
  }

  function PutBatchWork(s: TxState, turns: seq<Turn>): nat
    requires WellFormed(s)
  {
    if s.batched == 0 || !Contiguous(s) then 0 else SubmitWork(Mark(s), turns)
  }

  /** The turns of the whole drain in which the kernel did something. */
  function DrainWork(s: TxState, turns: seq<Turn>): nat
    requires WellFormed(s)
    decreases |turns|
  {
    var put := PutBatch(Harvest(s), turns);
    PutBatchWork(Harvest(s), turns) +
    if !put.Ok? || put.s.outstanding == 0 || put.rest == [] then 0 else
      var s1 := Run(put.s, put.rest[0]);
      Moved(put.s, s1) + DrainWork(s1, put.rest[1..])
  }

  lemma {:induction false} SubmitWorkIsBounded(s: TxState, turns: seq<Turn>)
    requires WellFormed(s) && Contiguous(s)
    ensures SubmitWork(s, turns) + Load(Submit(s, turns).s) <= Load(s)
    decreases |turns|
  {
    hide Run;
    if turns != [] {
      var s1 := Run(s, turns[0]);
      TurnLightens(s, turns[0]);
      if HasRoom(s1) {
        assert Load(Enqueue(s1)) <= Load(s1);
      } else {
        SubmitWorkIsBounded(s1, turns[1..]);
      }
    }
  }

  /** Whatever the kernel does, drain sees at most as many turns that change anything as the pipeline
      had steps to go; what it leaves of the pipeline is that much shorter. */
  lemma {:induction false} DrainWorkIsBounded(s: TxState, turns: seq<Turn>)
    requires WellFormed(s)
    ensures DrainWork(s, turns) <= Load(s)
    ensures !Drain(s, turns).Panicked? ==> DrainWork(s, turns) + Load(Drain(s, turns).s) <= Load(s)
    decreases |turns|
  {
    hide Run;
    hide Submit;
    hide SubmitWork;
    var h := Harvest(s);
    assert Load(h) <= Load(s);
    if h.batched != 0 && Contiguous(h) {
      SubmitWorkIsBounded(Mark(h), turns);
    }
    var put := PutBatch(h, turns);
    if put.Ok? && put.s.outstanding != 0 && put.rest != [] {
      TurnLightens(put.s, put.rest[0]);
      DrainWorkIsBounded(Run(put.s, put.rest[0]), put.rest[1..]);
    }
  }

  // ---------- while drain spins the kernel can do something ----------

  ghost predicate CanAct(s: TxState)
    requires WellFormed(s)
  {
    exists step :: Kernel(s, step) != s
  }

  lemma CanTakeOrComplete(s: TxState)
    requires WellFormed(s) && (s.ring != [] || (s.kernel != [] && |s.comp| < s.cfg.compRingSize))
    ensures CanAct(s)
  {
    if s.ring != [] {
      assert Kernel(s, Take) != s;
    } else {
      assert Kernel(s, Complete(0)) != s;
    }
  }

  /** outstanding_tx_frames is the number of frames on the kernel's side. */
  ghost predicate Counted(s: TxState) {
    WellFormed(s) && s.outstanding == |Outstanding(s)|
  }

  lemma {:induction false} RunCounted(s: TxState, turn: Turn)
    requires Counted(s)
    ensures Counted(Run(s, turn))
    decreases |turn|
  {
    if turn != [] {
      RunCounted(Kernel(s, turn[0]), turn[1..]);
    }
  }

  lemma {:induction false} SubmitCounted(s: TxState, turns: seq<Turn>)
    requires Counted(s) && Contiguous(s)
    ensures Submit(s, turns).Ok? ==> Counted(Submit(s, turns).s) && |Submit(s, turns).s.ring| >= s.batched
    decreases |turns|
  {
    if turns != [] {
      RunCounted(s, turns[0]);
      if !HasRoom(Run(s, turns[0])) {
        SubmitCounted(Run(s, turns[0]), turns[1..]);
      }
    }
  }

  /** A batch that was tried and still waits has something in front of it. */
  lemma {:induction false} SubmitStuck(s: TxState, turns: seq<Turn>)
    requires WellFormed(s) && Contiguous(s) && s.batched <= s.cfg.txRingSize
    requires turns != [] && Submit(s, turns).Spinning?
    ensures Submit(s, turns).s.ring != []
    decreases |turns|
  {
    hide Run;
    if turns[1..] != [] {
      SubmitStuck(Run(s, turns[0]), turns[1..]);
    }
  }

  /** If drain is left spinning, the kernel can take or complete; the one exception is a schedule that
      ended before the first attempt to submit. */
  lemma {:induction false} SpinningKernelCanAct(s: TxState, turns: seq<Turn>)
    requires Counted(s) && s.batched <= s.cfg.txRingSize && 1 <= s.cfg.compRingSize
    requires turns != [] || s.batched == 0
    requires Drain(s, turns).Spinning?
    ensures CanAct(Drain(s, turns).s)
    decreases |turns|
  {
    hide Run;
    hide Submit;
    hide CanAct;
    var h := Harvest(s);
    assert Counted(h) && h.comp == [];
    var put := PutBatch(h, turns);
    if h.batched != 0 {
      if put.Spinning? { SubmitStuck(Mark(h), turns); } else { SubmitCounted(Mark(h), turns); }
    }
    if put.Ok? && put.rest != [] {
      RunCounted(put.s, put.rest[0]);
      SpinningKernelCanAct(Run(put.s, put.rest[0]), put.rest[1..]);
    } else {
      CanTakeOrComplete(put.s);
    }
  }

  // ---------- so drain ends under every fair kernel ----------

  /** The first n turns of an endless schedule. */
  function Prefix(f: nat -> Turn, n: nat): (r: seq<Turn>)
    ensures |r| == n
  {
    if n == 0 then [] else Prefix(f, n - 1) + [f(n - 1)]
  }

  ghost predicate SpinsAfter(s: TxState, f: nat -> Turn, n: nat)
    requires WellFormed(s)
  {
    Drain(s, Prefix(f, n)).Spinning?
  }

  /** The kernel does something more between turns n and m, or drain is over by then. */
  ghost predicate ActsBy(s: TxState, f: nat -> Turn, n: nat, m: nat)
    requires WellFormed(s)
  {
    n < m && (SpinsAfter(s, f, m) ==> DrainWork(s, Prefix(f, n)) < DrainWork(s, Prefix(f, m)))
  }

  /** A kernel that can act does so after finitely many idle turns. */
  ghost predicate Fair(s: TxState, f: nat -> Turn)
    requires WellFormed(s)
  {
    forall n: nat :: SpinsAfter(s, f, n) && CanAct(Drain(s, Prefix(f, n)).s) ==> exists m: nat :: ActsBy(s, f, n, m)
  }

  lemma {:induction false} WorkGrows(s: TxState, f: nat -> Turn, w: nat) returns (n: nat)
    requires Counted(s) && s.batched <= s.cfg.txRingSize && 1 <= s.cfg.compRingSize && Fair(s, f)
    requires forall k: nat :: SpinsAfter(s, f, k)
    ensures 0 < n && w <= DrainWork(s, Prefix(f, n))
    decreases w
  {
    hide Drain;
    hide DrainWork;
    hide CanAct;
    n := 1;
    if w > 0 {
      n := WorkGrows(s, f, w - 1);
      assert SpinsAfter(s, f, n);
      SpinningKernelCanAct(s, Prefix(f, n));
      var m: nat :| ActsBy(s, f, n, m);
      assert SpinsAfter(s, f, m);
      n := m;
    }
  }

  lemma DrainEndsWithRoom(s: TxState, f: nat -> Turn)
    requires Counted(s) && s.batched <= s.cfg.txRingSize && 1 <= s.cfg.compRingSize && Fair(s, f)
    ensures exists n: nat :: !SpinsAfter(s, f, n)
  {
    if forall n: nat :: SpinsAfter(s, f, n) {
      var n := WorkGrows(s, f, Load(s) + 1);
      DrainWorkIsBounded(s, Prefix(f, n));
      assert false;
    }
  }

  // ---------- a batch that the tx ring cannot hold ----------

  lemma {:induction false} NeverRoom(s: TxState, turns: seq<Turn>)
    requires WellFormed(s) && Contiguous(s) && s.cfg.txRingSize < s.batched
    ensures Submit(s, turns).Spinning?
    decreases |turns|
  {
    hide Run;
    if turns != [] {
      NeverRoom(Run(s, turns[0]), turns[1..]);
    }
  }

  /** With such a batch drain does not end, whatever the kernel does. */
  lemma DrainHangs(s: TxState, turns: seq<Turn>)
    requires WellFormed(s) && Contiguous(s) && s.cfg.txRingSize < s.batched
    ensures Drain(s, turns).Spinning?
  {
    hide Submit;
    NeverRoom(Mark(Harvest(s)), turns);
  }

  /** Under every kernel that does not idle forever while it has something to do, drain terminates, by
      returning or by panicking, exactly when its batch straddles the end or fits on the tx ring. */
  lemma DrainTerminates(s: TxState, f: nat -> Turn)
    requires Counted(s) && 1 <= s.cfg.compRingSize && Fair(s, f)
    ensures (exists n: nat :: !SpinsAfter(s, f, n)) <==> !Contiguous(s) || s.batched <= s.cfg.txRingSize
  {
    if s.batched <= s.cfg.txRingSize {
      DrainEndsWithRoom(s, f);
    } else if !Contiguous(s) {
      assert !SpinsAfter(s, f, 0);
    } else {
      forall n: nat ensures SpinsAfter(s, f, n) {
        DrainHangs(s, Prefix(f, n));
      }
    }
  }

  // ---------- a kernel that takes and completes in every turn that counts ----------

  predicate Productive(turn: Turn) { Take in turn && Complete(0) in turn }

  function ProductiveTurns(turns: seq<Turn>): nat {
    if turns == [] then 0 else (if Productive(turns[0]) then 1 else 0) + ProductiveTurns(turns[1..])
  }

  lemma {:induction false} ProductiveTurnLightens(s: TxState, turn: Turn)
    requires WellFormed(s)
    ensures Take in turn && s.ring != [] ==> Load(Run(s, turn)) < Load(s)
    ensures Complete(0) in turn && s.kernel != [] && |s.comp| < s.cfg.compRingSize
            ==> Load(Run(s, turn)) < Load(s)
    decreases |turn|
  {
    TurnLightens(s, turn);
    if turn != [] {
      assert turn == [turn[0]] + turn[1..];
      var k := Kernel(s, turn[0]);
      ProductiveTurnLightens(k, turn[1..]);
      TurnLightens(k, turn[1..]);
      if k != s {
        assert Load(k) < Load(s);
      }
    }
  }

  lemma {:induction false} SubmitFinishes(s: TxState, turns: seq<Turn>)
    requires WellFormed(s) && Contiguous(s)
    requires 0 < s.batched <= s.cfg.txRingSize
    requires ProductiveTurns(turns) > Load(s)
    ensures Submit(s, turns).Ok?
    ensures ProductiveTurns(Submit(s, turns).rest) > Load(Submit(s, turns).s)
    decreases |turns|
  {
    var s1 := Run(s, turns[0]);
    TurnLightens(s, turns[0]);
    ProductiveTurnLightens(s, turns[0]);
    if HasRoom(s1) {
      assert Load(Enqueue(s1)) < Load(s1);
    } else {
      if Productive(turns[0]) {
        if s.ring == [] {
          EmptyRingStaysEmpty(s, turns[0]);
        }
        assert Load(s1) < Load(s);
      }
      SubmitFinishes(s1, turns[1..]);
    }
  }

  lemma {:induction false} EmptyRingStaysEmpty(s: TxState, turn: Turn)
    requires WellFormed(s) && s.ring == []
    ensures Run(s, turn).ring == []
    decreases |turn|
  {
    if turn != [] {
      EmptyRingStaysEmpty(Kernel(s, turn[0]), turn[1..]);
    }
  }

  lemma PutBatchFinishes(s: TxState, turns: seq<Turn>)
    requires WellFormed(s) && s.batched <= s.cfg.txRingSize
    requires ProductiveTurns(turns) > Load(s)
    ensures !PutBatch(s, turns).Spinning?
    ensures PutBatch(s, turns).Ok? ==> ProductiveTurns(PutBatch(s, turns).rest) > Load(PutBatch(s, turns).s)
  {
    if s.batched != 0 && Contiguous(s) {
      SubmitFinishes(Mark(s), turns);
    }
  }

  /** A productive turn followed by the next harvest makes progress as long as a frame is out. */
  lemma TurnAndHarvestLighten(s: TxState, turn: Turn)
    requires Inv(s, false) && s.cfg.compRingSize >= 1
    ensures Load(Harvest(Run(s, turn))) <= Load(s)
    ensures Productive(turn) && s.outstanding > 0 ==> Load(Harvest(Run(s, turn))) < Load(s)
  {
    hide ExactlyOnce;
    hide InOrder;
    hide InWindow;
    var r := Run(s, turn);
    TurnLightens(s, turn);
    ProductiveTurnLightens(s, turn);
    CompOnlyGrows(s, turn);
    if Productive(turn) && s.outstanding > 0 && s.ring == [] && (s.kernel == [] || |s.comp| >= s.cfg.compRingSize) {
      assert |s.comp| > 0;
      assert |Harvest(r).comp| < |r.comp|;
    }
  }

  lemma {:induction false} CompOnlyGrows(s: TxState, turn: Turn)
    requires WellFormed(s)
    ensures |s.comp| <= |Run(s, turn).comp|
    decreases |turn|
  {
    if turn != [] {
      CompOnlyGrows(Kernel(s, turn[0]), turn[1..]);
    }
  }

  /** In particular drain ends within as many turns that both take and complete as the pipeline has
      steps to go. */
  lemma DrainEndsWhenProductive(s: TxState, turns: seq<Turn>)
    requires Idle(s, false)
    requires s.cfg.batchSize <= s.cfg.txRingSize && 1 <= s.cfg.compRingSize
    requires ProductiveTurns(turns) > Load(s)
    ensures !Drain(s, turns).Spinning?
  {
    DrainFinishes(s, turns);
  }

  lemma {:induction false} DrainFinishes(s: TxState, turns: seq<Turn>)
    requires Idle(s, false)
    requires s.cfg.batchSize <= s.cfg.txRingSize && 1 <= s.cfg.compRingSize
    requires ProductiveTurns(turns) > Load(Harvest(s))
    ensures !Drain(s, turns).Spinning?
    decreases |turns|
  {
    hide ExactlyOnce;
    hide InOrder;
    hide InWindow;
    HarvestAgrees(s, false);
    var h := Harvest(s);
    PutBatchAgrees(h, turns, false);
    PutBatchFinishes(h, turns);
    var put := PutBatch(h, turns);
    if put.Ok? && put.s.outstanding != 0 {
      TurnAndHarvestLighten(put.s, put.rest[0]);
      RunAgrees(put.s, put.rest[0], false, false);
      DrainFinishes(Run(put.s, put.rest[0]), put.rest[1..]);
    }
  }

  // ---------- which schedules are fair, without looking at states ----------

  lemma {:induction false} SubmitOneMore(s: TxState, turns: seq<Turn>, t: Turn)
    requires WellFormed(s) && Contiguous(s)
    ensures var r, more := Submit(s, turns), turns + [t];
            if r.Ok? then Submit(s, more) == Ok(r.s, r.rest + [t]) && SubmitWork(s, more) == SubmitWork(s, turns)
            else
              var r1 := Run(r.s, t);
              && SubmitWork(s, more) == SubmitWork(s, turns) + Moved(r.s, r1)
              && Contiguous(r1) && Submit(s, more) == if HasRoom(r1) then Ok(Enqueue(r1), []) else Spinning(r1)
    decreases |turns|
  {
    hide Run;
    var more := turns + [t];
    if turns == [] {
      assert more[0] == t && more[1..] == [];
    } else {
      assert more[0] == turns[0] && more[1..] == turns[1..] + [t];
      var s1 := Run(s, turns[0]);
      if !HasRoom(s1) { SubmitOneMore(s1, turns[1..], t); }
    }
  }

  /** What was there for the kernel to do still is. */
  ghost predicate StillThere(r: TxState, r': TxState) {
    r'.cfg == r.cfg && |r.ring| <= |r'.ring| && r'.kernel == r.kernel && |r'.comp| <= |r.comp|
  }

  /** One more turn counts exactly if it does something to the state drain was left in; if it does not
      and drain goes on spinning, the kernel can still do what it could. */
  lemma {:induction false} DrainOneMore(s: TxState, turns: seq<Turn>, t: Turn)
    requires WellFormed(s) && Drain(s, turns).Spinning?
    ensures var r := Drain(s, turns).s;
            && DrainWork(s, turns + [t]) == DrainWork(s, turns) + Moved(r, Run(r, t))
            && (Run(r, t) == r && Drain(s, turns + [t]).Spinning? ==> StillThere(r, Drain(s, turns + [t]).s))
    decreases |turns|
  {
    hide Run;
    hide Submit;
    hide SubmitWork;
    var h, more := Harvest(s), turns + [t];
    if h.batched != 0 && Contiguous(h) { SubmitOneMore(Mark(h), turns, t); }
    var put := PutBatch(h, turns);
    if put.Ok? {
      assert PutBatch(h, more) == Ok(put.s, put.rest + [t]);
      if put.rest == [] {
        assert (put.rest + [t])[1..] == [] && (put.rest + [t])[0] == t;
      } else {
        assert (put.rest + [t])[1..] == put.rest[1..] + [t];
        DrainOneMore(Run(put.s, put.rest[0]), put.rest[1..], t);
      }
    }
  }

  /** Some turn from n on contains the step. */
  ghost predicate TriedFrom(f: nat -> Turn, step: KernelStep, n: nat) {
    exists m: nat :: n <= m && step in f(m)
  }

  /** The kernel tries to take again and again and tries to complete again and again; when, in which
      turns, in what order and what else it does is open. */
  ghost predicate Lively(f: nat -> Turn) {
    forall n: nat :: TriedFrom(f, Take, n) && TriedFrom(f, Complete(0), n)
  }

  ghost predicate StepCan(s: TxState, step: KernelStep)
    requires WellFormed(s)
  {
    (step == Take && s.ring != []) || (step == Complete(0) && s.kernel != [] && |s.comp| < s.cfg.compRingSize)
  }

  lemma TriedIsDone(s: TxState, turn: Turn, step: KernelStep)
    requires WellFormed(s) && StepCan(s, step) && step in turn
    ensures Run(s, turn) != s
  {
    ProductiveTurnLightens(s, turn);
  }

  /** From a spinning state in which the step is possible up to the turn that tries it. */
  lemma {:induction false} ActsByThen(s: TxState, f: nat -> Turn, step: KernelStep, n: nat, m: nat) returns (at: nat)
    requires WellFormed(s) && n <= m && step in f(m)
    requires SpinsAfter(s, f, n) && StepCan(Drain(s, Prefix(f, n)).s, step)
    ensures ActsBy(s, f, n, at)
    decreases m - n
  {
    hide Drain;
    hide DrainWork;
    hide Run;
    DrainOneMore(s, Prefix(f, n), f(n));
    at := n + 1;
    if SpinsAfter(s, f, n + 1) && Run(Drain(s, Prefix(f, n)).s, f(n)) == Drain(s, Prefix(f, n)).s {
      if n == m { TriedIsDone(Drain(s, Prefix(f, n)).s, f(m), step); }
      at := ActsByThen(s, f, step, n + 1, m);
    }
  }

  lemma LivelyIsFair(s: TxState, f: nat -> Turn)
    requires WellFormed(s) && Lively(f)
    ensures Fair(s, f)
  {
    hide Drain;
    hide DrainWork;
    forall n: nat | SpinsAfter(s, f, n) && CanAct(Drain(s, Prefix(f, n)).s)
      ensures exists m: nat :: ActsBy(s, f, n, m)
    {
      var r := Drain(s, Prefix(f, n)).s;
      var step := if r.ring != [] then Take else Complete(0);
      assert TriedFrom(f, step, n);
      var m: nat :| n <= m && step in f(m);
      var at := ActsByThen(s, f, step, n, m);
    }
  }

  // ---------- which configurations can reach a drain that hangs ----------

  lemma {:induction false} DrainCounted(s: TxState, turns: seq<Turn>)
    requires Counted(s)
    ensures Drain(s, turns).Ok? ==> Counted(Drain(s, turns).s)
    decreases |turns|
  {
    hide Run;
    hide Submit;
    var h := Harvest(s);
    if h.batched != 0 && Contiguous(h) { SubmitCounted(Mark(h), turns); }
    var put := PutBatch(h, turns);
    if put.Ok? && put.s.outstanding != 0 && put.rest != [] {
      RunCounted(put.s, put.rest[0]);
      DrainCounted(Run(put.s, put.rest[0]), put.rest[1..]);
    }
  }

  lemma SendCounted(s: TxState, p: Payload, checked: bool, turns: seq<Turn>)
    requires Counted(s)
    ensures var r := Send(s, p, checked, turns); r.Ok? || r.NoFreeTxFrames? ==> Counted(r.s)
  {
    hide Submit;
    var st := Store(Harvest(s), p);
    if Contiguous(st) { SubmitCounted(Mark(st), turns); }
  }

  /** Between calls, with every batch size: outstanding_tx_frames is right and no batch is left full. */
  ghost predicate Settled(s: TxState) {
    Counted(s) && (s.cfg.batchSize == 0 || s.batched < s.cfg.batchSize)
  }

  lemma StepSettled(s: TxState, e: Event)
    requires Settled(s)
    ensures var r := Step(s, e); r.Ok? || r.NoFreeTxFrames? ==> Settled(r.s)
  {
    hide Run;
    hide Submit;
    match e {
      case SendCall(p, turns) => SendCounted(s, p, true, turns);
      case SendApplyCall(p, turns) => SendCounted(s, p, false, turns);
      case DrainCall(turns) => DrainCounted(s, turns);
      case KernelTurn(turn) => RunCounted(s, turn);
    }
  }

  lemma {:induction false} RunSettled(s: TxState, es: seq<Event>)
    requires Settled(s)
    ensures RunAll(s, es).Ok? ==> Settled(RunAll(s, es).s)
    decreases |es|
  {
    hide Step;
    if es != [] {
      StepSettled(s, es[0]);
      var r := Step(s, es[0]);
      if r.Ok? || r.NoFreeTxFrames? { RunSettled(r.s, es[1..]); }
    }
  }

  /** Whatever has been done so far, a drain ends under every fair kernel. */
  ghost predicate NeverHangs(s: TxState)
    requires WellFormed(s)
  {
    forall es: seq<Event>, f: nat -> Turn | RunAll(s, es).Ok? && Fair(RunAll(s, es).s, f) ::
      exists n: nat :: !SpinsAfter(RunAll(s, es).s, f, n)
  }

  /** t payloads have been written and none has been handed over. */
  ghost predicate Written(s: TxState, t: nat) {
    && WellFormed(s) && s.ring == [] && s.kernel == [] && s.comp == []
    && (forall i :: 0 <= i < s.cfg.frames ==> s.status[i] == Free)
    && s.batched == t <= s.cfg.frames && s.cursor == Wrap(t, s.cfg.frames)
  }

  function Sends(t: nat): seq<Event> {
    if t == 0 then [] else Sends(t - 1) + [SendApplyCall([], [])]
  }

  lemma OneMoreWritten(s: TxState, t: nat)
    requires Written(s, t) && t < s.cfg.frames && (s.cfg.batchSize == 0 || t + 1 < s.cfg.batchSize)
    ensures var r := RunAll(s, [SendApplyCall([], [])]);
            r.Ok? && r.s.cfg == s.cfg && Written(r.s, t + 1)
  {
    assert Harvest(s) == s;
    var e := SendApplyCall([], []);
    RunAllFirst(s, e, []);
    assert [e] + [] == [e];
  }

  lemma {:induction false} SendsWrite(s: TxState, t: nat)
    requires WellFormed(s) && Written(s, 0) && t <= s.cfg.frames && (s.cfg.batchSize == 0 || t < s.cfg.batchSize)
    ensures var r := RunAll(s, Sends(t)); r.Ok? && r.s.cfg == s.cfg && Written(r.s, t)
    decreases t
  {
    hide Written;
    hide RunAll;
    if t == 0 {
      NothingSent(s);
    } else {
      SendsWrite(s, t - 1);
      RunAllSum(s, Sends(t - 1), [SendApplyCall([], [])]);
      OneMoreWritten(RunAll(s, Sends(t - 1)).s, t - 1);
    }
  }

  lemma NothingSent(s: TxState)
    requires WellFormed(s)
    ensures RunAll(s, Sends(0)) == Ok(s, [])
  {
  }

  /** A run of sends after which drain does not end under any schedule: a batch that the ring cannot
      hold is built up, which takes batch size 0 or one above the ring. */
  lemma HangingRun(cfg: TxConfig, content: seq<Payload>) returns (es: seq<Event>)
    requires 0 < cfg.frames == |content| && cfg.txRingSize < cfg.frames
    requires cfg.batchSize == 0 || cfg.txRingSize + 1 < cfg.batchSize
    ensures var r := RunAll(Init(cfg, content), es);
            r.Ok? && forall turns :: Drain(r.s, turns).Spinning?
  {
    var s := Init(cfg, content);
    es := Sends(cfg.txRingSize + 1);
    SendsWrite(s, cfg.txRingSize + 1);
    var r := RunAll(s, es);
    forall turns ensures Drain(r.s, turns).Spinning? {
      DrainHangs(r.s, turns);
    }
  }

  function Tireless(n: nat): Turn { [Take, Complete(0)] }

  lemma TirelessIsLively()
    ensures Lively(Tireless)
  {
    forall n: nat ensures TriedFrom(Tireless, Take, n) && TriedFrom(Tireless, Complete(0), n) {
      assert Take in Tireless(n) && Complete(0) in Tireless(n);
    }
  }

  /** In every run from the start every drain ends under every fair kernel, exactly when the tx ring can
      hold all tx frames or batches are never empty and at most one frame longer than the ring. */
  lemma DrainAlwaysEnds(cfg: TxConfig, content: seq<Payload>)
    requires 0 < cfg.frames == |content| && 1 <= cfg.compRingSize
    ensures NeverHangs(Init(cfg, content)) <==>
              cfg.frames <= cfg.txRingSize || 1 <= cfg.batchSize <= cfg.txRingSize + 1
  {
    hide Fair;
    hide RunAll;
    hide SpinsAfter;
    var s := Init(cfg, content);
    if cfg.frames <= cfg.txRingSize || 1 <= cfg.batchSize <= cfg.txRingSize + 1 {
      forall es: seq<Event>, f: nat -> Turn | RunAll(s, es).Ok? && Fair(RunAll(s, es).s, f)
        ensures exists n: nat :: !SpinsAfter(RunAll(s, es).s, f, n)
      {
        RunSettled(s, es);
        DrainTerminates(RunAll(s, es).s, f);
      }
    } else {
      var es := HangingRun(cfg, content);
      var r := RunAll(s, es).s;
      TirelessIsLively();
      LivelyIsFair(r, Tireless);
      forall n: nat ensures SpinsAfter(r, Tireless, n) { SpinsMeans(r, Tireless, n); }
      assert !NeverHangs(s);
    }
  }

  lemma SpinsMeans(s: TxState, f: nat -> Turn, n: nat)
    requires WellFormed(s) && Drain(s, Prefix(f, n)).Spinning?
    ensures SpinsAfter(s, f, n)
  {
  }

  // ---------- a refused send is accepted in the end ----------

  /** The state of the n-th further attempt of a send that has been refused until then, with a kernel
      turn after each refusal. */
  ghost function Retried(s: TxState, f: nat -> Turn, n: nat): (r: TxState)
    requires WellFormed(s)
    ensures WellFormed(r)
  {
    if n == 0 then s else Run(Harvest(Retried(s, f, n - 1)), f(n - 1))
  }

  ghost predicate RefusedAt(s: TxState, f: nat -> Turn, n: nat, p: Payload, checked: bool, turns: seq<Turn>)
    requires WellFormed(s)
  {
    Send(Retried(s, f, n), p, checked, turns).NoFreeTxFrames?
  }

  lemma {:induction false} RetriedIdle(s: TxState, f: nat -> Turn, n: nat)
    requires Idle(s, false)
    ensures Idle(Retried(s, f, n), false) && Retried(s, f, n).cfg == s.cfg
    decreases n
  {
    hide Inv;
    hide ExactlyOnce;
    hide InOrder;
    hide InWindow;
    if n > 0 {
      RetriedIdle(s, f, n - 1);
      var r := Retried(s, f, n - 1);
      HarvestAgrees(r, false);
      RunAgrees(Harvest(r), f(n - 1), false, false);
    }
  }

  /** While a send is refused the kernel can take or complete. */
  lemma RefusedLeavesWork(s: TxState, p: Payload, checked: bool, turns: seq<Turn>)
    requires Idle(s, false) && 1 <= s.cfg.compRingSize && Send(s, p, checked, turns).NoFreeTxFrames?
    ensures var h := Harvest(s);
            && h.comp == [] && Harvest(h) == h && Load(h) <= Load(s)
            && StepCan(h, if h.ring != [] then Take else Complete(0))
  {
    hide ExactlyOnce;
    hide InOrder;
    hide InWindow;
    RefusedFrameIsOutstanding(s, p, checked, turns);
  }

  /** From the n-th attempt to one that is not refused; m is when the kernel next tries what it can do. */
  lemma {:induction false} AcceptedFrom(s: TxState, f: nat -> Turn, p: Payload, checked: bool, turns: seq<Turn>,
                                        n: nat, m: nat)
    returns (k: nat)
    requires Idle(s, false) && 1 <= s.cfg.compRingSize && Lively(f)
    requires n <= m
    requires RefusedAt(s, f, n, p, checked, turns) ==>
               (if Harvest(Retried(s, f, n)).ring != [] then Take else Complete(0)) in f(m)
    ensures !RefusedAt(s, f, k, p, checked, turns)
    decreases Load(Retried(s, f, n)), m - n
  {
    hide Inv;
    hide ExactlyOnce;
    hide InOrder;
    hide InWindow;
    hide Run;
    hide Send;
    hide Lively;
    hide StepCan;
    hide WellFormed;
    k := n;
    if RefusedAt(s, f, n, p, checked, turns) {
      RetriedIdle(s, f, n);
      var r := Retried(s, f, n);
      var h := Harvest(r);
      var step := if h.ring != [] then Take else Complete(0);
      RefusedLeavesWork(r, p, checked, turns);
      TurnLightens(h, f(n));
      if n == m { TriedIsDone(h, f(n), step); }
      if Run(h, f(n)) == h {
        SameAttempt(r, h, p, checked, turns);
        k := AcceptedFrom(s, f, p, checked, turns, n + 1, m);
      } else {
        var m' := NextTry(s, f, n + 1);
        k := AcceptedFrom(s, f, p, checked, turns, n + 1, m');
      }
    }
  }

  lemma SameAttempt(r: TxState, h: TxState, p: Payload, checked: bool, turns: seq<Turn>)
    requires WellFormed(r) && h == Harvest(r) && Harvest(h) == h
    ensures Send(h, p, checked, turns) == Send(r, p, checked, turns)
  {
    hide PutBatch;
  }

  lemma NextTry(s: TxState, f: nat -> Turn, n: nat) returns (m: nat)
    requires WellFormed(s) && Lively(f)
    ensures n <= m && (if Harvest(Retried(s, f, n)).ring != [] then Take else Complete(0)) in f(m)
  {
    var step := if Harvest(Retried(s, f, n)).ring != [] then Take else Complete(0);
    assert TriedFrom(f, step, n);
    m :| n <= m && step in f(m);
  }

  /** n refused attempts, with a kernel turn after each. */
  function Attempts(f: nat -> Turn, p: Payload, checked: bool, turns: seq<Turn>, n: nat): seq<Event> {
    if n == 0 then [] else
      Attempts(f, p, checked, turns, n - 1)
      + ([if checked then SendCall(p, turns) else SendApplyCall(p, turns)] + ([KernelTurn(f(n - 1))] + []))
  }

  lemma AttemptRuns(s: TxState, e: Event, turn: Turn)
    requires WellFormed(s) && Step(s, e).NoFreeTxFrames?
    ensures RunAll(s, [e] + ([KernelTurn(turn)] + [])) == Ok(Run(Step(s, e).s, turn), [])
  {
    hide Step;
    RunAllFirst(s, e, [KernelTurn(turn)] + []);
    LastTurnRuns(Step(s, e).s, turn);
  }

  lemma LastTurnRuns(s: TxState, turn: Turn)
    requires WellFormed(s)
    ensures RunAll(s, [KernelTurn(turn)] + []) == Ok(Run(s, turn), [])
  {
    RunAllFirst(s, KernelTurn(turn), []);
  }

  /** Retried is where the run of refused attempts is. */
  lemma {:induction false} AttemptsRun(s: TxState, f: nat -> Turn, p: Payload, checked: bool, turns: seq<Turn>, n: nat)
    requires WellFormed(s) && forall j: nat :: j < n ==> RefusedAt(s, f, j, p, checked, turns)
    ensures RunAll(s, Attempts(f, p, checked, turns, n)) == Ok(Retried(s, f, n), [])
    decreases n
  {
    hide RunAll;
    hide Run;
    hide PutBatch;
    hide Store;
    hide Drain;
    hide WellFormed;
    if n == 0 {
      NothingSent(s);
    } else {
      AttemptsRun(s, f, p, checked, turns, n - 1);
      var e := if checked then SendCall(p, turns) else SendApplyCall(p, turns);
      var r := Retried(s, f, n - 1);
      assert RefusedAt(s, f, n - 1, p, checked, turns);
      RunAllSum(s, Attempts(f, p, checked, turns, n - 1), [e] + ([KernelTurn(f(n - 1))] + []));
      AttemptRuns(r, e, f(n - 1));
    }
  }

  /** A send that is refused, and tried again after each kernel turn, is not refused forever: there is a
      first attempt that gets past the refusal. The kernel may complete in any order. */
  lemma RefusalEnds(s: TxState, f: nat -> Turn, p: Payload, checked: bool, turns: seq<Turn>)
    requires Idle(s, false) && 1 <= s.cfg.compRingSize && Lively(f)
    ensures exists k: nat :: !RefusedAt(s, f, k, p, checked, turns)
                             && forall j: nat :: j < k ==> RefusedAt(s, f, j, p, checked, turns)
  {
    hide RefusedAt;
    var m := NextTry(s, f, 0);
    var k := AcceptedFrom(s, f, p, checked, turns, 0, m);
    FirstOf(s, f, p, checked, turns, k);
  }

  lemma {:induction false} FirstOf(s: TxState, f: nat -> Turn, p: Payload, checked: bool, turns: seq<Turn>, k: nat)
    requires WellFormed(s) && !RefusedAt(s, f, k, p, checked, turns)
    ensures exists i: nat :: !RefusedAt(s, f, i, p, checked, turns)
                             && forall j: nat :: j < i ==> RefusedAt(s, f, j, p, checked, turns)
    decreases k
  {
    hide RefusedAt;
    if j: nat :| j < k && !RefusedAt(s, f, j, p, checked, turns) {
      FirstOf(s, f, p, checked, turns, j);
    }
  }
}
