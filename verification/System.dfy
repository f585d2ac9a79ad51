/** Both halves over one UMEM: the first frames belong to the transmit side, the rest to the
    receive side, as Xsk2::new splits them. Where is each frame? */
module System {
  import opened Sequences
  import opened Frames
  import T = TxProtocol
  import R = RxProtocol
  import TI = TxInvariant
  import RI = RxInvariant

  datatype Sys = Sys(tx: T.TxState, rx: R.RxState)

  datatype Event = Tx(te: T.Event) | Rx(re: R.Event)

  /** Between calls, inside a call that is still spinning, or stopped. held are the frames that a
      spinning recv_apply has processed and not yet resubmitted. */
  datatype Outcome =
    | Between(sys: Sys)
    | Inside(sys: Sys, held: seq<nat>)
    | Panicked

  ghost predicate WellFormed(sys: Sys) { T.WellFormed(sys.tx) && R.WellFormed(sys.rx) }

  function Step(sys: Sys, e: Event): (r: Outcome)
    requires WellFormed(sys)
    ensures !r.Panicked? ==> WellFormed(r.sys)
  {
    match e
    case Tx(te) =>
      var r := T.Step(sys.tx, te);
      if r.Panicked? then Panicked
      else if r.Spinning? then Inside(sys.(tx := r.s), [])
      else Between(sys.(tx := r.s))
    case Rx(re) =>
      var r := R.Step(sys.rx, re);
      if r.Panicked? then Panicked
      else if r.Spinning? then Inside(sys.(rx := r.s), r.held)
      else Between(sys.(rx := r.s))
  }

  function Run(sys: Sys, es: seq<Event>): (r: Outcome)
    requires WellFormed(sys)
    ensures !r.Panicked? ==> WellFormed(r.sys)
    decreases |es|
  {
    if es == [] then Between(sys) else
      var r := Step(sys, es[0]);
      if r.Between? then Run(r.sys, es[1..]) else r
  }

  lemma RunNothing(sys: Sys)
    requires WellFormed(sys)
    ensures Run(sys, []) == Between(sys)
  {
  }

  /** The number of frames on each side does not change. */
  lemma {:induction false} RunKeepsConfig(sys: Sys, es: seq<Event>)
    requires WellFormed(sys)
    ensures !Run(sys, es).Panicked? ==> Run(sys, es).sys.tx.cfg == sys.tx.cfg && Run(sys, es).sys.rx.cfg == sys.rx.cfg
    decreases |es|
  {
    if es != [] {
      var r := Step(sys, es[0]);
      if r.Between? { RunKeepsConfig(r.sys, es[1..]); }
    }
  }

  /** One event more. */
  lemma {:induction false} RunSnoc(sys: Sys, es: seq<Event>, e: Event)
    requires WellFormed(sys)
    ensures Run(sys, es).Between? ==> Run(sys, es + [e]) == Step(Run(sys, es).sys, e)
    decreases |es|
  {
    if es == [] {
      assert [] + [e] == [e] && [e][1..] == [];
    } else {
      assert (es + [e])[1..] == es[1..] + [e];
      var r := Step(sys, es[0]);
      if r.Between? { RunSnoc(r.sys, es[1..], e); }
    }
  }

  function Init(tc: T.TxConfig, content: seq<Payload>, rc: R.RxConfig): (sys: Sys)
    requires 0 < tc.frames == |content| && 0 < rc.frames
    ensures WellFormed(sys)
  {
    Sys(T.Init(tc, content), R.Init(rc))
  }

  // ---------- places ----------

  datatype Place =
    | Free | Batched | OnTxRing | TxInKernel | OnCompRing        // transmit side
    | OnFillRing | RxInKernel | OnRxRing | Filled | Processed    // receive side

  predicate IsTxPlace(p: Place) {
    p.Free? || p.Batched? || p.OnTxRing? || p.TxInKernel? || p.OnCompRing?
  }

  /** Frame f is at place p. */
  ghost predicate At(sys: Sys, held: seq<nat>, f: nat, p: Place)
    requires WellFormed(sys) && sys.tx.batched <= sys.tx.cfg.frames
  {
    var n := sys.tx.cfg.frames;
    if f < n then
      match p
      case Free => f !in TI.Outstanding(sys.tx) && f !in TI.Batched(sys.tx)
      case Batched => f in TI.Batched(sys.tx)
      case OnTxRing => f in sys.tx.ring
      case TxInKernel => f in sys.tx.kernel
      case OnCompRing => f in sys.tx.comp
      case _ => false
    else if f < n + sys.rx.cfg.frames then
      match p
      case OnFillRing => f - n in sys.rx.fill
      case RxInKernel => f - n in sys.rx.kernel
      case OnRxRing => f - n in R.FramesOf(sys.rx.rx)
      case Filled => sys.rx.slots[f - n].Some?
      case Processed => f - n in held
      case _ => false
    else false
  }

  /** Frame f is at exactly one place, one of its own side. */
  ghost predicate HasOnePlace(sys: Sys, held: seq<nat>, f: nat)
    requires WellFormed(sys) && sys.tx.batched <= sys.tx.cfg.frames
  {
    exists p :: At(sys, held, f, p) && (IsTxPlace(p) <==> f < sys.tx.cfg.frames)
                && forall q :: At(sys, held, f, q) ==> q == p
  }

  /** Every frame is at exactly one place, and no list names it twice. */
  ghost predicate OnePlaceEach(sys: Sys, held: seq<nat>)
    requires WellFormed(sys) && sys.tx.batched <= sys.tx.cfg.frames
  {
    && (forall f :: 0 <= f < sys.tx.cfg.frames + sys.rx.cfg.frames ==> HasOnePlace(sys, held, f))
    && Distinct(sys.tx.ring) && Distinct(sys.tx.kernel) && Distinct(sys.tx.comp)
    && Distinct(sys.rx.fill) && Distinct(sys.rx.kernel) && Distinct(R.FramesOf(sys.rx.rx)) && Distinct(held)
  }

  /** Both invariants; fifo and mode say how far the kernel and the calls are restricted, and so how
      much is known about order. */
  ghost predicate Agrees(r: Outcome, fifo: bool, mode: RI.Mode) {
    match r
    case Between(sys) => TI.Idle(sys.tx, fifo) && RI.Agrees(sys.rx, [], mode)
    case Inside(sys, held) =>
      || (TI.Idle(sys.tx, fifo) && RI.Agrees(sys.rx, held, mode))
      || (TI.Waiting(sys.tx, fifo) && held == [] && RI.Agrees(sys.rx, [], mode))
    case Panicked => true
  }

  ghost predicate Allows(e: Event, fifo: bool, mode: RI.Mode) {
    match e
    case Tx(te) => fifo ==> TI.FifoEvents([te])
    case Rx(re) => RI.Allows(re, mode)
  }

  ghost predicate AllowsAll(es: seq<Event>, fifo: bool, mode: RI.Mode) {
    forall k :: 0 <= k < |es| ==> Allows(es[k], fifo, mode)
  }

  lemma StepAgrees(sys: Sys, e: Event, fifo: bool, mode: RI.Mode)
    requires WellFormed(sys) && Agrees(Between(sys), fifo, mode) && Allows(e, fifo, mode)
    ensures Agrees(Step(sys, e), fifo, mode)
  {
    hide TI.Agrees;
    hide RI.Agrees;
    match e {
      case Tx(te) => TI.StepAgrees(sys.tx, te, fifo);
      case Rx(re) => RI.StepAgrees(sys.rx, re, mode);
    }
  }

  lemma {:induction false} RunAgrees(sys: Sys, es: seq<Event>, fifo: bool, mode: RI.Mode)
    requires WellFormed(sys) && Agrees(Between(sys), fifo, mode) && AllowsAll(es, fifo, mode)
    ensures Agrees(Run(sys, es), fifo, mode)
    decreases |es|
  {
    hide TI.Idle;
    hide RI.Agrees;
    hide Allows;
    if es != [] {
      StepAgrees(sys, es[0], fifo, mode);
      var r := Step(sys, es[0]);
      if r.Between? {
        RunAgrees(r.sys, es[1..], fifo, mode);
      }
    }
  }

  /** The ordered modes: what was sent is a prefix of what was accepted, and what was delivered is a
      prefix of what arrived. */
  lemma AgreesMeansOrder(r: Outcome, fifo: bool, mode: RI.Mode)
    requires Agrees(r, fifo, mode) && !r.Panicked?
    ensures fifo ==> r.sys.tx.sent <= r.sys.tx.accepted
    ensures mode == RI.RecvFifo || mode == RI.ApplyOnly || mode == RI.ApplyFifo ==>
              r.sys.rx.delivered <= r.sys.rx.arrived
  {
    hide TI.Agrees;
    hide RI.Agrees;
    var t, x := r.sys.tx, r.sys.rx;
    if fifo { TI.SentInOrder(t, !TI.Idle(t, true)); }
    RI.DeliveredInOrder(x, if RI.Agrees(x, [], mode) then [] else r.held, mode);
  }

  // ---------- each half on its own ----------

  function TxPart(es: seq<Event>): seq<T.Event> {
    if es == [] then [] else (if es[0].Tx? then [es[0].te] else []) + TxPart(es[1..])
  }

  function RxPart(es: seq<Event>): seq<R.Event> {
    if es == [] then [] else (if es[0].Rx? then [es[0].re] else []) + RxPart(es[1..])
  }

  /** The halves do not see each other: a run that returns is a run of each half that returns in the
      same state, and a run that panics or spins does so because a half does. So what is proved of the
      runs of a half holds of it in every run of the system. */
  lemma {:induction false} RunProjects(sys: Sys, es: seq<Event>)
    requires WellFormed(sys)
    ensures var r, t, x := Run(sys, es), T.RunAll(sys.tx, TxPart(es)), R.RunAll(sys.rx, RxPart(es));
            match r
            case Between(sys') => t == T.Ok(sys'.tx, []) && x == R.Applied(sys'.rx, [])
            case Inside(sys', held) => t == T.Spinning(sys'.tx) || x == R.Spinning(sys'.rx, held)
            case Panicked => t.Panicked? || x.Panicked?
    decreases |es|
  {
    hide T.Step;
    hide R.Step;
    if es != [] {
      var r := Step(sys, es[0]);
      match es[0] {
        case Tx(te) => T.RunAllFirst(sys.tx, te, TxPart(es[1..]));
        case Rx(re) => R.RunAllFirst(sys.rx, re, RxPart(es[1..]));
      }
      assert [] + TxPart(es[1..]) == TxPart(es[1..]) && [] + RxPart(es[1..]) == RxPart(es[1..]);
      if r.Between? { RunProjects(r.sys, es[1..]); }
    }
  }

  lemma DistinctParts<T>(a: seq<T>, b: seq<T>, c: seq<T>, d: seq<T>)
    requires Distinct(a + b + c + d)
    ensures Distinct(a) && Distinct(b) && Distinct(c) && Distinct(d)
    ensures forall x :: x in a ==> x !in b && x !in c && x !in d
    ensures forall x :: x in b ==> x !in c && x !in d
    ensures forall x :: x in c ==> x !in d
  {
    DistinctSum(a + b + c, d);
    DistinctSum(a + b, c);
    DistinctSum(a, b);
    assert forall x :: x in a + b + c <==> x in a || x in b || x in c;
    assert forall x :: x in a + b <==> x in a || x in b;
  }

  lemma TxPlaces(sys: Sys, held: seq<nat>, marked: bool, f: nat)
    requires WellFormed(sys) && TI.Inv(sys.tx, marked) && f < sys.tx.cfg.frames
    ensures HasOnePlace(sys, held, f)
  {
    var t := sys.tx;
    DistinctParts(t.comp, t.kernel, t.ring, TI.Batched(t));
    var p := if f in t.comp then OnCompRing else if f in t.kernel then TxInKernel
             else if f in t.ring then OnTxRing else if f in TI.Batched(t) then Place.Batched else Place.Free;
    assert At(sys, held, f, p);
  }

  lemma RxPlaces(sys: Sys, held: seq<nat>, f: nat)
    requires WellFormed(sys) && RI.Inv(sys.rx, held) && sys.tx.batched <= sys.tx.cfg.frames
    requires sys.tx.cfg.frames <= f < sys.tx.cfg.frames + sys.rx.cfg.frames
    ensures HasOnePlace(sys, held, f)
  {
    var r, i := sys.rx, f - sys.tx.cfg.frames;
    DistinctParts(R.FramesOf(r.rx), r.kernel, r.fill, held);
    var p := if i in R.FramesOf(r.rx) then OnRxRing else if i in r.kernel then RxInKernel
             else if i in r.fill then OnFillRing else if i in held then Place.Processed else Place.Filled;
    assert At(sys, held, f, p);
  }

  lemma OnePlace(sys: Sys, held: seq<nat>, marked: bool)
    requires WellFormed(sys) && TI.Inv(sys.tx, marked) && RI.Inv(sys.rx, held)
    ensures OnePlaceEach(sys, held)
  {
    forall f | 0 <= f < sys.tx.cfg.frames + sys.rx.cfg.frames
      ensures HasOnePlace(sys, held, f)
    {
      if f < sys.tx.cfg.frames {
        TxPlaces(sys, held, marked, f);
      } else {
        RxPlaces(sys, held, f);
      }
    }
    DistinctParts(sys.tx.comp, sys.tx.kernel, sys.tx.ring, TI.Batched(sys.tx));
    DistinctParts(R.FramesOf(sys.rx.rx), sys.rx.kernel, sys.rx.fill, held);
  }

  /** Whole-system ownership: in every state of every run, between calls and inside them, whatever
      the kernel does, each frame is at exactly one place and on its own side. */
  lemma EveryFrameHasOnePlace(tc: T.TxConfig, content: seq<Payload>, rc: R.RxConfig, es: seq<Event>)
    requires 0 < tc.frames == |content| && 1 <= tc.batchSize <= tc.frames
    requires 0 < rc.frames <= rc.fillRingSize
    ensures var r := Run(Init(tc, content, rc), es);
            match r
            case Panicked => true
            case Between(sys) => sys.tx.batched <= sys.tx.cfg.frames && OnePlaceEach(sys, [])
            case Inside(sys, held) => sys.tx.batched <= sys.tx.cfg.frames && OnePlaceEach(sys, held)
  {
    hide TI.Inv;
    hide TI.ExactlyOnce;
    hide TI.InWindow;
    hide TI.InOrder;
    hide RI.Agrees;
    hide Run;
    hide OnePlaceEach;
    var s0 := Init(tc, content, rc);
    TI.InitIdle(tc, content);
    RI.InitAgrees(rc, RI.Mixed);
    assert AllowsAll(es, false, RI.Mixed);
    RunAgrees(s0, es, false, RI.Mixed);
    AgreesMeansOnePlace(Run(s0, es), false, RI.Mixed);
  }

  lemma AgreesMeansOnePlace(r: Outcome, fifo: bool, mode: RI.Mode)
    requires !r.Panicked? ==> WellFormed(r.sys)
    requires Agrees(r, fifo, mode)
    ensures !r.Panicked? ==> r.sys.tx.batched <= r.sys.tx.cfg.frames
                             && OnePlaceEach(r.sys, if r.Inside? then r.held else [])
  {
    hide OnePlaceEach;
    match r {
      case Between(sys) => OnePlace(sys, [], false);
      case Inside(sys, held) => OnePlace(sys, held, !TI.Idle(sys.tx, fifo));
      case Panicked =>
    }
  }
}
