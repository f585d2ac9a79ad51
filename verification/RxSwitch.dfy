/** Going over from recv_apply alone to recv, what can go wrong when the two are mixed, and a kernel that
    does not use frames in order. */
module RxSwitch {
  import opened Sequences
  import opened Frames
  import opened RxProtocol
  import opened RxInvariant
  import opened RxTheorems
  import opened RxWindow
  import opened RxStarves
  import opened RxOrder

  // ---------- after recv_apply alone ----------

  /** The cursor is at the frame that comes next. */
  predicate Aligned(s: RxState)
    requires 0 < s.cfg.frames
  {
    s.pktsDelivered % s.cfg.frames == s.cursor
  }

  lemma AlignedSwitch(s: RxState)
    requires Agrees(s, [], ApplyFifo) && Aligned(s)
    ensures Agrees(s, [], RecvFifo)
  {
    assert Cycle(s) + [] == Cycle(s);
    assert |Cycle(s)| == s.cfg.frames;
    assert Pending(s) == [];
  }

  /** Then every later run of recv delivers in arrival order. */
  lemma AlignedSwitchKeepsOrder(s: RxState, es: seq<Event>)
    requires Agrees(s, [], ApplyFifo) && Aligned(s) && AllowsAll(es, RecvFifo)
    ensures !RunAll(s, es).Panicked? ==> RunAll(s, es).s.delivered <= RunAll(s, es).s.arrived
  {
    hide Inv;
    hide ExactlyOnce;
    hide InMode;
    AlignedSwitch(s);
    RunAllAgrees(s, es, RecvFifo);
    var r := RunAll(s, es);
    if !r.Panicked? { DeliveredInOrder(r.s, if r.Spinning? then r.held else [], RecvFifo); }
  }

  lemma DistinctFrames(s: RxState)
    requires Inv(s, [])
    ensures Distinct(FramesOf(s.rx))
  {
    assert forall k :: 0 <= k < |s.rx| ==> (Cycle(s) + [])[k] == FramesOf(s.rx)[k];
  }

  lemma CycleIsSpan(s: RxState)
    requires Inv(s, []) && Rotation(s, [])
    ensures |Cycle(s)| == s.cfg.frames == s.toFill
    ensures forall k :: 0 <= k < s.cfg.frames ==>
              Cycle(s)[k] == Wrap(s.pktsDelivered % s.cfg.frames + k, s.cfg.frames)
  {
    assert Cycle(s) + [] == Cycle(s);
  }

  lemma RingFrame(s: RxState, k: nat)
    requires Inv(s, []) && Rotation(s, []) && k < |s.rx|
    ensures |s.rx| <= s.cfg.frames
    ensures s.rx[k].frame == Wrap(s.pktsDelivered % s.cfg.frames + k, s.cfg.frames)
  {
    CycleIsSpan(s);
    assert Cycle(s)[k] == FramesOf(s.rx)[k];
  }

  /** The k-th packet on the ring is then k frames after the one that comes next. */
  lemma PolledSlot(s: RxState, k: nat)
    requires WellFormed(s) && Inv(s, []) && Rotation(s, []) && k < |s.rx|
    ensures |s.rx| <= s.cfg.frames
    ensures Polled(s).slots[Wrap(s.pktsDelivered % s.cfg.frames + k, s.cfg.frames)] == Some(s.rx[k].p)
  {
    hide Polled;
    hide Inv;
    hide Rotation;
    RingFrame(s, k);
    PollsAll(s);
    DistinctFrames(s);
    MarkedSlots(s.slots, s.rx);
  }

  /** With a full ring the packet recv hands over first is the one in the frame at the cursor, which
      is not the oldest unless the cursor is aligned. */
  lemma FullRingOrder(s: RxState, room: nat, turns: seq<Turn>)
    requires Agrees(s, [], ApplyFifo) && |s.rx| == s.cfg.frames
    ensures var r := Recv(s, room, true, turns);
            var d := s.pktsDelivered % s.cfg.frames;
            var late := if d <= s.cursor then s.cursor - d else s.cursor + s.cfg.frames - d;
            |s.arrived| == |s.delivered| + s.cfg.frames && (r.Packet? ==> r.p == s.arrived[|s.delivered| + late])
  {
    hide Inv;
    hide ExactlyOnce;
    hide Rotation;
    hide Receive;
    hide Refill;
    var n, d := s.cfg.frames, s.pktsDelivered % s.cfg.frames;
    var late := if d <= s.cursor then s.cursor - d else s.cursor + n - d;
    PolledSlot(s, late);
    PollsAll(s);
    assert s.arrived[|s.delivered| + late] == PayloadsOf(s.rx)[late];
  }

  lemma RotationReturns(s: RxState)
    requires Agrees(s, [], ApplyFifo)
    ensures Returning(s) <==> Aligned(s) || |s.rx| == s.cfg.frames
  {
    hide ExactlyOnce;
    hide RingOrder;
    hide Before;
    hide Cycle;
    var n, c, m, q := s.cfg.frames, s.cursor, |s.rx|, s.kernel + s.fill;
    var d := s.pktsDelivered % n;
    CycleIsSpan(s);
    QueueOfCycle(s);
    forall k: nat | k < n - m ensures q[k] == Wrap(d + m + k, n) {
      assert Cycle(s)[m + k] == Wrap(d + (m + k), n);
    }
    if m < n {
      assert q[0] == Wrap(d + m, n) && Before(c, n - m, n)[0] == Wrap(c + m, n) by { BeforeAt(c, n - m, n, 0); }
    }
    if m == n {
      assert q == [] == Before(c, 0, n);
    } else if c == d {
      forall k: nat | k < n - m ensures q[k] == Before(c, n - m, n)[k] { BeforeAt(c, n - m, n, k); }
      assert q == Before(c, n - m, n);
    }
  }

  lemma BeforeAt(c: nat, count: nat, n: nat, k: nat)
    requires c < n && k < count <= n
    ensures Before(c, count, n)[k] == Wrap(c + (n - count) + k, n)
  {
  }

  lemma QueueOfCycle(s: RxState)
    requires WellFormed(s)
    ensures Cycle(s) == FramesOf(s.rx) + (s.kernel + s.fill)
  {
  }

  /** After any run of recv_apply alone, whatever is on the rx ring, switching to recv never leaves a
      packet behind exactly when the number of packets delivered so far, modulo the number of rx frames,
      is the cursor, or every rx frame is on the ring. */
  lemma SwitchingToRecv(s: RxState)
    requires Agrees(s, [], ApplyFifo) && 1 <= s.cfg.rxRingSize && 1 <= s.cfg.fillRingSize
    ensures NeverStarves(s) <==> Aligned(s) || |s.rx| == s.cfg.frames
  {
    WeakerMode(s, []);
    RecvMissesNothing(s);
    RotationReturns(s);
  }

  // ---------- recv and recv_apply mixed ----------

  predicate InOrderTurns(es: seq<Event>) {
    forall k :: 0 <= k < |es| ==>
      if es[k].KernelTurn? then AllowsTurn(es[k].turn, RecvFifo) else AllowsTurns(es[k].turns, RecvFifo)
  }

  function ArriveTurn(): Turn { [TakeFill] + ([Deliver(0, [])] + []) }

  lemma Arrives(s: RxState)
    requires WellFormed(s) && s.kernel == [] && s.fill != [] && |s.rx| < s.cfg.rxRingSize
    ensures Step(s, KernelTurn(ArriveTurn())) ==
            Applied(s.(fill := s.fill[1..], rx := s.rx + [Arrival(s.fill[0], [])], arrived := s.arrived + [[]]), [])
  {
    var k := s.(fill := s.fill[1..], kernel := [s.fill[0]]);
    assert s.kernel + [s.fill[0]] == [s.fill[0]];
    RunFirst(s, TakeFill, [Deliver(0, [])] + []);
    RunFirst(k, Deliver(0, []), []);
    assert Without([s.fill[0]], 0) == [];
  }

  lemma AppliesOne(s: RxState, f: nat)
    requires WellFormed(s) && s.rx == [Arrival(f, [])] && 0 < s.toFill && |s.fill| < s.cfg.fillRingSize
    ensures Step(s, RecvApplyCall(true, NoTurns())) ==
            Applied(s.(rx := [], fill := s.fill + [f], delivered := s.delivered + [[]], pktsRx := s.pktsRx + 1,
                       pktsDelivered := s.pktsDelivered + 1), [[]])
  {
    hide Run;
    hide FramesOf;
    hide PayloadsOf;
    assert s.rx[..1] == s.rx && s.rx[1..] == [];
    assert FramesOf(s.rx) == [f] && PayloadsOf(s.rx) == [[]];
    var turns, r := NoTurns(), Processed(s, 1);
    assert turns[0] == [];
    RunNothing(r);
    assert Refill(r, [f], turns) == Submitted(r.(fill := r.fill + [f]));
  }

  lemma RecvsOne(s: RxState, f: nat, g: nat)
    requires WellFormed(s) && s.rx == [Arrival(f, []), Arrival(g, [])] && f == s.cursor != g && 2 <= s.toFill
    requires |s.fill| < s.cfg.fillRingSize
    ensures var r := Step(s, RecvCall(0, true, NoTurns()));
            && r.Packet? && r.s.rx == [] && r.s.kernel == s.kernel && r.s.fill == s.fill + [f] && r.s.cfg == s.cfg
            && r.s.toFill == s.toFill - 1 && r.s.pktsDelivered == s.pktsDelivered + 1
            && r.s.cursor == Wrap(s.cursor + 1, s.cfg.frames)
  {
    hide MarkFilled;
    hide Run;
    assert s.rx[..2] == s.rx && s.rx[2..] == [];
    TwoMarked(s.slots, s.rx, f, g);
    var turns, r := NoTurns(), Receive(s, 2);
    assert turns[0] == [];
    RunNothing(r);
    assert r.slots[r.cursor] == Some([]);
    assert Refill(r, [r.cursor], turns) == Submitted(r.(fill := r.fill + [r.cursor]));
  }

  lemma TwoMarked(slots: seq<Option<Payload>>, batch: seq<Arrival>, f: nat, g: nat)
    requires batch == [Arrival(f, []), Arrival(g, [])] && Below(FramesOf(batch), |slots|)
    ensures f < |slots| && g < |slots| && MarkFilled(slots, batch) == slots[f := Some([])][g := Some([])]
  {
    var one, a := [Arrival(f, [])], Arrival(g, []);
    assert batch == one + [a];
    assert FramesOf(batch)[0] == f && FramesOf(batch)[1] == g;
    assert one[..0] == [];
    assert FramesOf(one) == [f] && FramesOf([a]) == [g];
    MarkOneMore(slots, one, a);
    assert [a][..0] == [];
  }

  ghost predicate Goes(s: RxState, es: seq<Event>, t: RxState) {
    WellFormed(s) && InOrderTurns(es) && RunAll(s, es) == Applied(t, []) && t.cfg == s.cfg
  }

  lemma GoesOn(s: RxState, es: seq<Event>, t: RxState, e: Event)
    requires Goes(s, es, t) && InOrderTurns([e]) && WellFormed(t)
    requires !Step(t, e).Panicked? && !Step(t, e).Spinning?
    ensures Goes(s, es + [e], Step(t, e).s)
  {
    hide Step;
    hide RunAll;
    RunOn(s, es, [e]);
    RunAllFirst(t, e, []);
    assert [e] + [] == [e];
    RunAllNothing(Step(t, e).s);
    assert [e][0] == e;
  }

  lemma TurnsInOrder()
    ensures InOrderTurns([KernelTurn(ArriveTurn())]) && InOrderTurns([RecvApplyCall(true, NoTurns())])
    ensures InOrderTurns([RecvCall(0, true, NoTurns())])
  {
  }

  /** One packet arrives and recv_apply handles it: the kernel's frames turn by one. */
  lemma ArriveAndApply(s: RxState, es: seq<Event>, t: RxState) returns (es': seq<Event>, t': RxState)
    requires WellFormed(t) && Goes(s, es, t) && t.kernel == [] && t.rx == [] && t.fill != [] && 0 < t.toFill
    requires 1 <= t.cfg.rxRingSize && |t.fill| <= t.cfg.fillRingSize
    ensures Goes(s, es', t') && WellFormed(t')
    ensures t' == t.(fill := t.fill[1..] + [t.fill[0]], delivered := t'.delivered, arrived := t'.arrived,
                     pktsRx := t.pktsRx + 1, pktsDelivered := t.pktsDelivered + 1)
  {
    hide Goes;
    hide Step;
    TurnsInOrder();
    Arrives(t);
    GoesOn(s, es, t, KernelTurn(ArriveTurn()));
    var t1 := Step(t, KernelTurn(ArriveTurn())).s;
    assert t.rx + [Arrival(t.fill[0], [])] == [Arrival(t.fill[0], [])];
    AppliesOne(t1, t.fill[0]);
    var es1 := es + [KernelTurn(ArriveTurn())];
    GoesOn(s, es1, t1, RecvApplyCall(true, NoTurns()));
    es', t' := es1 + [RecvApplyCall(true, NoTurns())], Step(t1, RecvApplyCall(true, NoTurns())).s;
  }

  /** Two packets arrive and one recv hands over the first. */
  lemma TwoArriveOneRecv(cfg: RxConfig) returns (es: seq<Event>, t: RxState)
    requires cfg.frames == 3 <= cfg.fillRingSize && 2 <= cfg.rxRingSize
    ensures Goes(Init(cfg), es, t) && WellFormed(t)
    ensures t.kernel == [] && t.rx == [] && t.fill == [2, 0] && t.toFill == 2 && t.cursor == 1 == t.pktsDelivered
  {
    hide Goes;
    hide Step;
    TurnsInOrder();
    var s, a, e := Init(cfg), KernelTurn(ArriveTurn()), RecvCall(0, true, NoTurns());
    assert s.fill == [0, 1, 2];
    GoesNowhere(s);
    Arrives(s);
    GoesOn(s, [], s, a);
    var s1 := Step(s, a).s;
    assert s1.fill == [1, 2];
    Arrives(s1);
    GoesOn(s, [] + [a], s1, a);
    var s2 := Step(s1, a).s;
    assert s2.rx == [Arrival(0, []), Arrival(1, [])] && s2.fill == [2];
    RecvsOne(s2, 0, 1);
    GoesOn(s, [] + [a] + [a], s2, e);
    es, t := [] + [a] + [a] + [e], Step(s2, e).s;
  }

  lemma GoesNowhere(s: RxState)
    requires WellFormed(s)
    ensures Goes(s, [], s)
  {
  }

  /** A run of recv and recv_apply with an in-order kernel after which the number of packets delivered
      says that the cursor is right, and yet recv will miss a packet: one waits at the cursor while the
      others have been turned round. */
  lemma AlignedIsNotEnough(cfg: RxConfig) returns (es: seq<Event>, t: RxState)
    requires cfg.frames == 3 <= cfg.fillRingSize && 2 <= cfg.rxRingSize
    ensures InOrderTurns(es) && RunAll(Init(cfg), es) == Applied(t, [])
    ensures WellFormed(t) && t.cfg == cfg && Aligned(t) && t.rx == [] && !NeverStarves(t)
  {
    var s := Init(cfg);
    es, t := TwoArriveOneRecv(cfg);
    var es1, t1 := ArriveAndApply(s, es, t);
    assert t1.fill == [0, 2];
    var es2, t2 := ArriveAndApply(s, es1, t1);
    assert t2.fill == [2, 0];
    es, t := ArriveAndApply(s, es2, t2);
    assert t.fill == [0, 2] && t.kernel + t.fill == [0, 2];
    MixedRunAgrees(cfg, es, t);
    RecvMissesNothing(t);
    BeforeAt(1, 2, 3, 0);
  }

  lemma MixedRunAgrees(cfg: RxConfig, es: seq<Event>, t: RxState)
    requires 0 < cfg.frames <= cfg.fillRingSize && RunAll(Init(cfg), es) == Applied(t, [])
    ensures Agrees(t, [], Mixed)
  {
    hide Agrees;
    InitAgrees(cfg, Mixed);
    assert AllowsAll(es, Mixed);
    RunAllAgrees(Init(cfg), es, Mixed);
  }

  // ---------- a kernel that does not use frames in order ----------

  predicate RecvOnly(es: seq<Event>) { forall k :: 0 <= k < |es| ==> !es[k].RecvApplyCall? }

  /** The same as NeverStarves for every kernel. */
  ghost predicate NeverStarvesInAnyOrder(s: RxState)
    requires WellFormed(s)
  {
    forall es: seq<Event>, room: nat, turns: seq<Turn> | RecvOnly(es) ::
      var r := RunAll(s, es);
      !r.Panicked? && !r.Spinning? && Recv(r.s, room, true, turns).Empty? ==>
        NoneFilled(Recv(r.s, room, true, turns).s)
  }

  /** The kernel takes two frames and uses the second first. */
  lemma SecondFirst(s: RxState) returns (turn: Turn)
    requires WellFormed(s) && s.kernel == [] && s.rx == [] && 2 <= |s.fill| && 1 <= s.cfg.rxRingSize
    ensures Run(s, turn).rx == [Arrival(s.fill[1], [])]
  {
    hide Run;
    var deliver := Deliver(1, []);
    turn := [TakeFill] + ([TakeFill] + ([deliver] + []));
    var s1 := Kernel(s, TakeFill);
    var s2 := Kernel(s1, TakeFill);
    RunFirst(s, TakeFill, [TakeFill] + ([deliver] + []));
    RunFirst(s1, TakeFill, [deliver] + []);
    RunFirst(s2, deliver, []);
    RunNothing(Kernel(s2, deliver));
    assert s2.kernel[1] == s.fill[1];
  }

  lemma OvertakenGap(s: RxState)
    requires WellFormed(s) && 2 <= s.cfg.frames && s.cursor == 0 && s.toFill > 0
    requires s.rx == [Arrival(1, [])] && NoneFilled(s)
    ensures Gap(Polled(s), 0, 1)
  {
    assert s.rx[..1] == s.rx;
    assert FramesOf(s.rx) == [1];
  }

  lemma StarvesAfterTurn(s: RxState, turn: Turn)
    requires WellFormed(s) && StarvesAfter(Run(s, turn), [])
    ensures !NeverStarvesInAnyOrder(s)
  {
    hide Run;
    hide Recv;
    hide NoneFilled;
    var e := KernelTurn(turn);
    var es: seq<Event> := [e] + [];
    RunAllFirst(s, e, []);
    assert RecvOnly(es);
  }

  lemma OneFrameSuffices(s: RxState, room: nat, turns: seq<Turn>)
    requires WellFormed(s) && s.cfg.frames == 1
    ensures var r := Recv(s, room, true, turns); r.Empty? ==> NoneFilled(r.s)
  {
  }

  lemma DeadRecv(s: RxState, room: nat, turns: seq<Turn>)
    requires Dead(s)
    ensures var r := Recv(s, room, true, turns); r.Empty? ==> NoneFilled(r.s)
  {
    assert Receive(s, 0) == s;
  }

  /** From the start and with recv alone, a kernel that does not use frames in order can make recv miss
      a packet exactly when there are at least two rx frames and they reach the kernel. */
  lemma RecvNeedsOrder(cfg: RxConfig)
    requires 0 < cfg.frames && 1 <= cfg.rxRingSize
    ensures NeverStarvesInAnyOrder(Init(cfg)) <==> cfg.frames == 1 || cfg.fillRingSize < cfg.frames
  {
    hide Recv;
    hide RunAll;
    hide NoneFilled;
    hide Dead;
    var s := Init(cfg);
    if cfg.frames == 1 || cfg.fillRingSize < cfg.frames {
      forall es: seq<Event>, room: nat, turns: seq<Turn> | RecvOnly(es)
        ensures var r := RunAll(s, es);
                !r.Panicked? && !r.Spinning? && Recv(r.s, room, true, turns).Empty? ==>
                  NoneFilled(Recv(r.s, room, true, turns).s)
      {
        var r := RunAll(s, es);
        if cfg.frames == 1 {
          if !r.Panicked? { OneFrameSuffices(r.s, room, turns); }
        } else {
          InitDead(cfg);
          UndersizedFillRingIsDead(s, es);
          DeadRecv(r.s, room, turns);
        }
      }
    } else {
      var turn := SecondFirst(s);
      OvertakenAtStart(cfg, turn);
      StarvesAfterTurn(s, turn);
    }
  }

  lemma OvertakenAtStart(cfg: RxConfig, turn: Turn)
    requires 2 <= cfg.frames <= cfg.fillRingSize && Run(Init(cfg), turn).rx == [Arrival(Init(cfg).fill[1], [])]
    ensures StarvesAfter(Run(Init(cfg), turn), [])
  {
    hide Run;
    hide Recv;
    var t := Run(Init(cfg), turn);
    assert Init(cfg).fill[1] == 1;
    OvertakenGap(t);
    GapHere(t, 0, 1);
  }
}
