/** What every step of the receive protocol keeps, and hence what holds in every run. */
module RxInvariant {
  import opened Arithmetic
  import opened Sequences
  import opened Frames
  import opened RxProtocol

  /** The frames on the kernel's side, in the order in which packets will come back in them. */
  function Cycle(s: RxState): seq<nat> { FramesOf(s.rx) + s.kernel + s.fill }

  /** What the user side believes agrees with where the frames are. held are the frames that
      recv_apply has processed and not yet resubmitted. */
  ghost predicate Inv(s: RxState, held: seq<nat>) {
    && WellFormed(s) && Below(held, s.cfg.frames)
    && Distinct(Cycle(s) + held)
    && (forall i :: 0 <= i < s.cfg.frames ==> (s.slots[i].None? <==> i in Cycle(s) + held))
    && s.toFill == |Cycle(s)|
    && s.pktsRx + s.toFill == s.pktsDelivered + s.cfg.frames
    && |s.arrived| == s.pktsRx + |s.rx|
    && |s.delivered| == s.pktsDelivered + |held|
  }

  /** The payloads waiting in Filled frames. */
  ghost function Waiting(slots: seq<Option<Payload>>): multiset<Payload> {
    if slots == [] then multiset{} else Waiting(slots[..|slots| - 1]) + Bag(slots[|slots| - 1])
  }

  function Bag(slot: Option<Payload>): multiset<Payload> {
    if slot.Some? then multiset{slot.value} else multiset{}
  }

  /** Every packet that arrived was delivered once, waits in one frame, or is on the rx ring. */
  ghost predicate ExactlyOnce(s: RxState) {
    multiset(s.arrived) == multiset(s.delivered) + Waiting(s.slots) + multiset(PayloadsOf(s.rx))
  }

  /** How far a run has been restricted, and so how much more is known about it. */
  datatype Mode =
    | Mixed       // recv and recv_apply, any kernel
    | RecvWindow  // recv only, and the kernel uses frames in the order it was given them
    | RecvFifo    // the same, from a state that has delivered in arrival order
    | ApplyOnly   // recv_apply only, any kernel
    | ApplyFifo   // recv_apply only, and the kernel uses frames in order

  /** The kernel's frames are the rest of the cycle, starting after the Filled ones at the cursor. */
  ghost predicate InWindow(s: RxState)
    requires WellFormed(s)
  {
    s.toFill <= s.cfg.frames && Cycle(s) == After(s.cursor, s.cfg.frames - s.toFill, s.toFill, s.cfg.frames)
  }

  function Value(slot: Option<Payload>): Payload { if slot.Some? then slot.value else [] }

  function Values(slots: seq<Option<Payload>>, q: seq<nat>): (r: seq<Payload>)
    requires Below(q, |slots|)
    ensures |r| == |q|
    ensures forall k {:trigger r[k]} {:trigger q[k]} :: 0 <= k < |q| ==> r[k] == Value(slots[q[k]])
  {
    if q == [] then [] else Values(slots, q[..|q| - 1]) + [Value(slots[q[|q| - 1]])]
  }

  /** The payloads in the frames from the cursor on that are not on the kernel's side. */
  function Pending(s: RxState): (r: seq<Payload>)
    requires WellFormed(s) && s.toFill <= s.cfg.frames
  {
    Values(s.slots, After(s.cursor, 0, s.cfg.frames - s.toFill, s.cfg.frames))
  }

  /** Packets are delivered in arrival order: those delivered, then those in the window from the
      cursor, then those on the rx ring. */
  ghost predicate InOrder(s: RxState)
    requires WellFormed(s) && s.toFill <= s.cfg.frames
  {
    s.arrived == s.delivered + Pending(s) + PayloadsOf(s.rx)
  }

  ghost predicate NoneFilled(s: RxState) {
    forall i :: 0 <= i < |s.slots| ==> s.slots[i] == None
  }

  /** Everything not yet delivered is on the rx ring, in arrival order. */
  ghost predicate RingOrder(s: RxState) {
    s.arrived == s.delivered + PayloadsOf(s.rx)
  }

  /** The cycle has been turned once for each packet delivered. */
  ghost predicate Rotation(s: RxState, held: seq<nat>)
    requires WellFormed(s)
  {
    Cycle(s) + held == Span(|s.delivered| % s.cfg.frames, s.cfg.frames, s.cfg.frames)
  }

  ghost predicate InMode(s: RxState, held: seq<nat>, mode: Mode)
    requires WellFormed(s)
  {
    match mode
    case Mixed => true
    case RecvWindow => held == [] && s.toFill <= s.cfg.frames && InWindow(s)
    case RecvFifo => held == [] && s.toFill <= s.cfg.frames && InWindow(s) && InOrder(s)
    case ApplyOnly => NoneFilled(s) && RingOrder(s)
    case ApplyFifo => NoneFilled(s) && RingOrder(s) && Rotation(s, held)
  }

  ghost predicate Agrees(s: RxState, held: seq<nat>, mode: Mode) {
    WellFormed(s) && Inv(s, held) && ExactlyOnce(s) && InMode(s, held, mode)
  }

  ghost predicate Good(r: Outcome, mode: Mode) {
    match r
    case Packet(s, _) => Agrees(s, [], mode)
    case Empty(s) => Agrees(s, [], mode)
    case Applied(s, _) => Agrees(s, [], mode)
    case Panicked => true
    case Spinning(s, held) => Agrees(s, held, mode)
  }

  predicate InOrderKernel(mode: Mode) { mode == RecvWindow || mode == RecvFifo || mode == ApplyFifo }

  predicate AllowsRecv(mode: Mode) { mode == Mixed || mode == RecvWindow || mode == RecvFifo }

  predicate AllowsApply(mode: Mode) { mode == Mixed || mode == ApplyOnly || mode == ApplyFifo }

  predicate AllowsTurn(turn: Turn, mode: Mode) {
    InOrderKernel(mode) ==> forall k :: 0 <= k < |turn| && turn[k].Deliver? ==> turn[k].i == 0
  }

  predicate AllowsTurns(turns: seq<Turn>, mode: Mode) {
    forall k :: 0 <= k < |turns| ==> AllowsTurn(turns[k], mode)
  }

  predicate Allows(e: Event, mode: Mode) {
    match e
    case RecvCall(_, _, turns) => AllowsRecv(mode) && AllowsTurns(turns, mode)
    case RecvApplyCall(_, turns) => AllowsApply(mode) && AllowsTurns(turns, mode)
    case KernelTurn(turn) => AllowsTurn(turn, mode)
  }

  // ---------- kernel steps ----------

  lemma FramesOfSum(a: seq<Arrival>, b: seq<Arrival>)
    ensures FramesOf(a + b) == FramesOf(a) + FramesOf(b)
    ensures PayloadsOf(a + b) == PayloadsOf(a) + PayloadsOf(b)
  {
  }

  lemma TakeMoves(s: RxState)
    requires WellFormed(s)
    ensures Cycle(Kernel(s, TakeFill)) == Cycle(s)
  {
    if s.fill != [] {
      assert s.fill == [s.fill[0]] + s.fill[1..];
    }
  }

  lemma DeliverMoves(s: RxState, i: nat, p: Payload)
    requires WellFormed(s) && Kernel(s, Deliver(i, p)) != s
    ensures Cycle(Kernel(s, Deliver(i, p))) == FramesOf(s.rx) + [s.kernel[i]] + Without(s.kernel, i) + s.fill
  {
    FramesOfSum(s.rx, [Arrival(s.kernel[i], p)]);
    assert FramesOf([Arrival(s.kernel[i], p)]) == [s.kernel[i]];
  }

  /** A kernel step only rearranges the cycle, and not even that when it is in order. */
  lemma KernelMoves(s: RxState, step: KernelStep)
    requires WellFormed(s)
    ensures multiset(Cycle(Kernel(s, step))) == multiset(Cycle(s))
    ensures step.TakeFill? || step.i == 0 ==> Cycle(Kernel(s, step)) == Cycle(s)
  {
    if step.TakeFill? {
      TakeMoves(s);
    } else if Kernel(s, step) != s {
      DeliverMoves(s, step.i, step.p);
      MoveForward(FramesOf(s.rx), s.kernel, step.i, s.fill);
      MoveFirst(FramesOf(s.rx), s.kernel, s.fill);
    }
  }

  lemma KernelArrives(s: RxState, step: KernelStep)
    requires WellFormed(s)
    ensures var r := Kernel(s, step);
            if |r.rx| == |s.rx| then r.rx == s.rx && r.arrived == s.arrived
            else step.Deliver? && PayloadsOf(r.rx) == PayloadsOf(s.rx) + [step.p] && r.arrived == s.arrived + [step.p]
  {
    var r := Kernel(s, step);
    if |r.rx| != |s.rx| {
      FramesOfSum(s.rx, [Arrival(s.kernel[step.i], step.p)]);
    }
  }

  lemma KernelInv(s: RxState, step: KernelStep, held: seq<nat>)
    requires Inv(s, held)
    ensures Inv(Kernel(s, step), held)
  {
    KernelMoves(s, step);
    KernelArrives(s, step);
    var r := Kernel(s, step);
    Rearranged(Cycle(r) + held, Cycle(s) + held);
    Rearranged(Cycle(r), Cycle(s));
  }

  lemma AppendBoth<T>(a: seq<T>, d: seq<T>, q: seq<T>, r: seq<T>, more: seq<T>)
    requires a == d + q + r
    ensures a + more == d + q + (r + more)
  {
  }

  lemma SameWindow(s: RxState, r: RxState, more: seq<Payload>)
    requires WellFormed(s) && WellFormed(r) && InWindow(s) && InOrder(s)
    requires r == s.(fill := r.fill, kernel := r.kernel, rx := r.rx, arrived := r.arrived)
    requires Cycle(r) == Cycle(s)
    requires r.arrived == s.arrived + more && PayloadsOf(r.rx) == PayloadsOf(s.rx) + more
    ensures InWindow(r) && InOrder(r)
  {
    hide Cycle;
    hide After;
    hide PayloadsOf;
    assert Pending(r) == Pending(s);
    AppendBoth(s.arrived, s.delivered, Pending(s), PayloadsOf(s.rx), more);
  }

  lemma KernelWindow(s: RxState, step: KernelStep)
    requires WellFormed(s) && InWindow(s) && InOrder(s)
    requires step.Deliver? ==> step.i == 0
    ensures InWindow(Kernel(s, step)) && InOrder(Kernel(s, step))
  {
    hide Cycle;
    hide After;
    hide InWindow;
    hide InOrder;
    hide PayloadsOf;
    KernelMoves(s, step);
    KernelArrives(s, step);
    var r := Kernel(s, step);
    SameWindow(s, r, if |r.rx| == |s.rx| then [] else [step.p]);
  }

  lemma KernelInWindow(s: RxState, step: KernelStep)
    requires WellFormed(s) && s.toFill <= s.cfg.frames && InWindow(s)
    requires step.Deliver? ==> step.i == 0
    ensures InWindow(Kernel(s, step))
  {
    hide Cycle;
    hide After;
    KernelMoves(s, step);
  }

  lemma KernelRing(s: RxState, step: KernelStep)
    requires WellFormed(s) && RingOrder(s)
    ensures RingOrder(Kernel(s, step))
  {
    hide Kernel;
    hide PayloadsOf;
    KernelArrives(s, step);
    var r := Kernel(s, step);
    if |r.rx| != |s.rx| {
      AppendBoth(s.arrived, s.delivered, [], PayloadsOf(s.rx), [step.p]);
    }
  }

  lemma KernelRotation(s: RxState, step: KernelStep, held: seq<nat>)
    requires WellFormed(s) && Rotation(s, held)
    requires step.Deliver? ==> step.i == 0
    ensures Rotation(Kernel(s, step), held)
  {
    hide Kernel;
    hide Cycle;
    hide Span;
    KernelMoves(s, step);
  }

  lemma KernelMode(s: RxState, step: KernelStep, held: seq<nat>, mode: Mode)
    requires WellFormed(s) && InMode(s, held, mode)
    requires InOrderKernel(mode) && step.Deliver? ==> step.i == 0
    ensures InMode(Kernel(s, step), held, mode)
  {
    hide InWindow;
    hide InOrder;
    hide RingOrder;
    hide Rotation;
    if mode == RecvFifo {
      assert s.toFill <= s.cfg.frames;
      KernelWindow(s, step);
    } else if mode == RecvWindow {
      assert s.toFill <= s.cfg.frames;
      KernelInWindow(s, step);
    } else {
      if mode != Mixed {
        KernelRing(s, step);
      }
      if mode == ApplyFifo {
        KernelRotation(s, step, held);
      }
    }
  }

  lemma KernelLedger(s: RxState, step: KernelStep)
    requires WellFormed(s) && ExactlyOnce(s)
    ensures ExactlyOnce(Kernel(s, step))
  {
    KernelArrives(s, step);
  }

  lemma KernelAgrees(s: RxState, step: KernelStep, held: seq<nat>, mode: Mode)
    requires Agrees(s, held, mode)
    requires InOrderKernel(mode) && step.Deliver? ==> step.i == 0
    ensures Agrees(Kernel(s, step), held, mode)
  {
    hide Inv;
    hide ExactlyOnce;
    hide InMode;
    KernelInv(s, step, held);
    KernelMode(s, step, held, mode);
    KernelLedger(s, step);
  }

  lemma {:induction false} RunAgrees(s: RxState, turn: Turn, held: seq<nat>, mode: Mode)
    requires Agrees(s, held, mode) && AllowsTurn(turn, mode)
    ensures Agrees(Run(s, turn), held, mode)
    decreases |turn|
  {
    hide Inv;
    hide ExactlyOnce;
    hide InMode;
    if turn != [] {
      KernelAgrees(s, turn[0], held, mode);
      RunAgrees(Kernel(s, turn[0]), turn[1..], held, mode);
    }
  }

  // ---------- consuming descriptors ----------

  lemma CycleSplits(s: RxState, k: nat)
    requires WellFormed(s) && k <= |s.rx|
    ensures Cycle(s) == FramesOf(s.rx[..k]) + (FramesOf(s.rx[k..]) + s.kernel + s.fill)
    ensures PayloadsOf(s.rx) == PayloadsOf(s.rx[..k]) + PayloadsOf(s.rx[k..])
  {
    assert s.rx == s.rx[..k] + s.rx[k..];
    FramesOfSum(s.rx[..k], s.rx[k..]);
  }

  lemma {:induction false} MarkedSlots(slots: seq<Option<Payload>>, batch: seq<Arrival>)
    requires Below(FramesOf(batch), |slots|) && Distinct(FramesOf(batch))
    ensures forall k {:trigger batch[k]} :: 0 <= k < |batch| ==>
              MarkFilled(slots, batch)[batch[k].frame] == Some(batch[k].p)
  {
    if batch != [] {
      var last := |batch| - 1;
      var init := batch[..last];
      assert FramesOf(batch) == FramesOf(init) + [batch[last].frame];
      MarkedSlots(slots, init);
      forall k | 0 <= k < last
        ensures MarkFilled(slots, batch)[batch[k].frame] == Some(batch[k].p)
      {
        assert batch[k] == init[k];
        assert FramesOf(batch)[k] != FramesOf(batch)[last];
      }
    }
  }

  lemma AddToBoth<T>(a: multiset<T>, b: multiset<T>, c: multiset<T>, d: multiset<T>, e: multiset<T>)
    requires a + b == c + d
    ensures a + e + b == c + e + d
  {
    assert a + e + b == a + b + e;
  }

  lemma WaitingOneMore(slots: seq<Option<Payload>>, x: Option<Payload>)
    ensures Waiting(slots + [x]) == Waiting(slots) + Bag(x)
  {
    assert (slots + [x])[..|slots|] == slots;
  }

  lemma UpdateInInit<T>(init: seq<T>, x: T, i: nat, v: T)
    requires i < |init|
    ensures (init + [x])[i := v] == init[i := v] + [x] && (init + [x])[i] == init[i]
  {
  }

  lemma UpdateLast<T>(init: seq<T>, x: T, v: T)
    ensures (init + [x])[|init| := v] == init + [v] && (init + [x])[|init|] == x
  {
  }

  lemma {:induction false} WaitingSet(slots: seq<Option<Payload>>, i: nat, v: Option<Payload>)
    requires i < |slots|
    ensures Waiting(slots[i := v]) + Bag(slots[i]) == Waiting(slots) + Bag(v)
    decreases |slots|
  {
    hide Waiting;
    hide Bag;
    var init, x := slots[..|slots| - 1], slots[|slots| - 1];
    assert slots == init + [x];
    WaitingOneMore(init, x);
    if i < |init| {
      WaitingSet(init, i, v);
      UpdateInInit(init, x, i, v);
      WaitingOneMore(init[i := v], x);
      AddToBoth(Waiting(init[i := v]), Bag(init[i]), Waiting(init), Bag(v), Bag(x));
    } else {
      UpdateLast(init, x, v);
      WaitingOneMore(init, v);
    }
  }

  lemma WaitingMarkedLast(slots: seq<Option<Payload>>, init: seq<Arrival>, a: Arrival)
    requires Below(FramesOf(init + [a]), |slots|) && Distinct(FramesOf(init + [a]))
    requires slots[a.frame].None?
    ensures Below(FramesOf(init), |slots|) && Distinct(FramesOf(init))
    ensures Waiting(MarkFilled(slots, init + [a])) == Waiting(MarkFilled(slots, init)) + multiset{a.p}
  {
    var batch := init + [a];
    FramesOfSum(init, [a]);
    assert FramesOf([a]) == [a.frame];
    DistinctSum(FramesOf(init), [a.frame]);
    assert a.frame in [a.frame];
    assert batch[..|init|] == init;
    assert MarkFilled(slots, batch) == MarkFilled(slots, init)[a.frame := Some(a.p)];
    WaitingSet(MarkFilled(slots, init), a.frame, Some(a.p));
  }

  lemma {:induction false} WaitingMarked(slots: seq<Option<Payload>>, batch: seq<Arrival>)
    requires Below(FramesOf(batch), |slots|) && Distinct(FramesOf(batch))
    requires forall k {:trigger batch[k]} :: 0 <= k < |batch| ==> slots[batch[k].frame].None?
    ensures Waiting(MarkFilled(slots, batch)) == Waiting(slots) + multiset(PayloadsOf(batch))
  {
    if batch != [] {
      var last := |batch| - 1;
      var init := batch[..last];
      assert batch == init + [batch[last]];
      WaitingMarkedLast(slots, init, batch[last]);
      WaitingMarked(slots, init);
      assert PayloadsOf(batch) == PayloadsOf(init) + [batch[last].p];
    }
  }

  /** The frames a prefix of the rx ring names are distinct, and none of them is Filled. */
  lemma PrefixIsFree(s: RxState, k: nat)
    requires Inv(s, []) && k <= |s.rx|
    ensures var batch := s.rx[..k];
            && Distinct(FramesOf(batch)) && Below(FramesOf(batch), s.cfg.frames)
            && forall j {:trigger batch[j]} :: 0 <= j < k ==> s.slots[batch[j].frame].None?
  {
    CycleSplits(s, k);
    var batch := s.rx[..k];
    assert Cycle(s) + [] == Cycle(s);
    DistinctSum(FramesOf(batch), FramesOf(s.rx[k..]) + s.kernel + s.fill);
    forall j | 0 <= j < k ensures s.slots[batch[j].frame].None? {
      assert FramesOf(s.rx)[j] == batch[j].frame;
      assert Cycle(s)[j] == batch[j].frame;
    }
  }

  lemma ReceiveInv(s: RxState, k: nat)
    requires Inv(s, []) && k <= |s.rx|
    ensures k <= s.toFill && Inv(Receive(s, k), [])
  {
    var batch := s.rx[..k];
    var r := Receive(s, k);
    CycleSplits(s, k);
    PrefixIsFree(s, k);
    MarkedSlots(s.slots, batch);
    assert Cycle(s) + [] == Cycle(s) && Cycle(r) + [] == Cycle(r);
    DistinctSum(FramesOf(batch), Cycle(r));
    forall i | 0 <= i < s.cfg.frames && i in FramesOf(batch) ensures r.slots[i].Some? {
      var j :| 0 <= j < k && FramesOf(batch)[j] == i;
      assert batch[j].frame == i;
    }
  }

  lemma AfterTail(c: nat, skip: nat, count: nat, n: nat, k: nat)
    requires c < n && skip + count <= n && k <= count
    ensures After(c, skip, count, n)[k..] == After(c, skip + k, count - k, n)
    ensures After(c, 0, skip + k, n) == After(c, 0, skip, n) + After(c, skip, count, n)[..k]
  {
  }

  lemma ValuesSum(slots: seq<Option<Payload>>, p: seq<nat>, q: seq<nat>)
    requires Below(p, |slots|) && Below(q, |slots|)
    ensures Below(p + q, |slots|)
    ensures Values(slots, p + q) == Values(slots, p) + Values(slots, q)
  {
    assert Below(p + q, |slots|);
  }

  lemma ValuesElsewhere(slots: seq<Option<Payload>>, r: seq<Option<Payload>>, q: seq<nat>)
    requires |slots| == |r| && Below(q, |slots|)
    requires forall i :: 0 <= i < |slots| && i in q ==> r[i] == slots[i]
    ensures Values(r, q) == Values(slots, q)
  {
    forall k | 0 <= k < |q| ensures Values(r, q)[k] == Values(slots, q)[k] {
      assert q[k] in q;
    }
  }

  lemma ValuesOfBatch(slots: seq<Option<Payload>>, batch: seq<Arrival>)
    requires Below(FramesOf(batch), |slots|) && Distinct(FramesOf(batch))
    ensures Values(MarkFilled(slots, batch), FramesOf(batch)) == PayloadsOf(batch)
  {
    MarkedSlots(slots, batch);
    forall j | 0 <= j < |batch| ensures Values(MarkFilled(slots, batch), FramesOf(batch))[j] == PayloadsOf(batch)[j] {
      assert FramesOf(batch)[j] == batch[j].frame;
    }
  }

  lemma ValuesMarked(slots: seq<Option<Payload>>, was: seq<nat>, batch: seq<Arrival>)
    requires Below(was, |slots|) && Below(FramesOf(batch), |slots|)
    requires Distinct(was + FramesOf(batch))
    ensures Below(was + FramesOf(batch), |slots|)
    ensures Values(MarkFilled(slots, batch), was + FramesOf(batch)) == Values(slots, was) + PayloadsOf(batch)
  {
    DistinctSum(was, FramesOf(batch));
    ValuesSum(MarkFilled(slots, batch), was, FramesOf(batch));
    ValuesElsewhere(slots, MarkFilled(slots, batch), was);
    ValuesOfBatch(slots, batch);
  }

  lemma ReceiveOrder(s: RxState, r: RxState, batch: seq<Arrival>)
    requires WellFormed(s) && WellFormed(r) && s.toFill <= s.cfg.frames && r.toFill <= s.cfg.frames
    requires InOrder(s) && r.cfg == s.cfg && r.arrived == s.arrived && r.delivered == s.delivered
    requires Pending(r) == Pending(s) + PayloadsOf(batch)
    requires PayloadsOf(s.rx) == PayloadsOf(batch) + PayloadsOf(r.rx)
    ensures InOrder(r)
  {
  }

  lemma ReceivedCycle(s: RxState, k: nat)
    requires WellFormed(s) && k <= |s.rx| && k <= s.toFill
    ensures k <= |Cycle(s)|
    ensures Cycle(Receive(s, k)) == Cycle(s)[k..] && FramesOf(s.rx[..k]) == Cycle(s)[..k]
    ensures PayloadsOf(s.rx) == PayloadsOf(s.rx[..k]) + PayloadsOf(Receive(s, k).rx)
  {
    CycleSplits(s, k);
  }

  lemma ValuesOfAll(slots: seq<Option<Payload>>, was: seq<nat>, batch: seq<Arrival>, all: seq<nat>)
    requires Below(was, |slots|) && Below(FramesOf(batch), |slots|) && Below(all, |slots|)
    requires all == was + FramesOf(batch) && Distinct(all)
    ensures Values(MarkFilled(slots, batch), all) == Values(slots, was) + PayloadsOf(batch)
  {
    hide FramesOf;
    hide PayloadsOf;
    hide Values;
    hide MarkFilled;
    ValuesMarked(slots, was, batch);
  }

  lemma AfterSplits(c: nat, f: nat, k: nat, n: nat)
    requires c < n && f + k <= n
    ensures After(c, 0, f + k, n) == After(c, 0, f, n) + After(c, f, k, n)
  {
  }

  lemma AfterPrefix(c: nat, skip: nat, count: nat, n: nat, k: nat)
    requires c < n && skip + count <= n && k <= count
    ensures After(c, skip, count, n)[..k] == After(c, skip, k, n)
  {
  }

  lemma WindowTail(cycle: seq<nat>, c: nat, count: nat, n: nat, k: nat)
    requires c < n && k <= count <= n && cycle == After(c, n - count, count, n)
    ensures cycle[k..] == After(c, n - (count - k), count - k, n)
  {
    AfterTail(c, n - count, count, n, k);
    assert n - count + k == n - (count - k);
  }

  lemma ReceivedInWindow(s: RxState, k: nat)
    requires WellFormed(s) && InWindow(s) && k <= |s.rx| && k <= s.toFill
    ensures InWindow(Receive(s, k))
  {
    hide MarkFilled;
    hide Cycle;
    hide After;
    ReceivedCycle(s, k);
    WindowTail(Cycle(s), s.cursor, s.toFill, s.cfg.frames, k);
  }

  lemma ReceivePending(s: RxState, k: nat)
    requires WellFormed(s) && InWindow(s) && k <= |s.rx| && k <= s.toFill
    ensures Pending(Receive(s, k)) == Pending(s) + PayloadsOf(s.rx[..k])
  {
    hide Cycle;
    hide After;
    hide Values;
    hide MarkFilled;
    hide PayloadsOf;
    var n, f := s.cfg.frames, s.cfg.frames - s.toFill;
    ReceivedCycle(s, k);
    AfterPrefix(s.cursor, f, s.toFill, n, k);
    AfterSplits(s.cursor, f, k, n);
    ValuesOfAll(s.slots, After(s.cursor, 0, f, n), s.rx[..k], After(s.cursor, 0, f + k, n));
    assert n - (s.toFill - k) == f + k;
  }

  lemma ReceiveWindow(s: RxState, k: nat)
    requires WellFormed(s) && InWindow(s) && InOrder(s) && k <= |s.rx| && k <= s.toFill
    ensures InWindow(Receive(s, k)) && InOrder(Receive(s, k))
  {
    ReceivedCycle(s, k);
    ReceivedInWindow(s, k);
    ReceivePending(s, k);
    ReceiveOrder(s, Receive(s, k), s.rx[..k]);
  }

  lemma ReceiveLedger(s: RxState, k: nat)
    requires Inv(s, []) && ExactlyOnce(s) && k <= |s.rx| && k <= s.toFill
    ensures ExactlyOnce(Receive(s, k))
  {
    hide Waiting;
    hide MarkFilled;
    hide PayloadsOf;
    hide FramesOf;
    PrefixIsFree(s, k);
    WaitingMarked(s.slots, s.rx[..k]);
    CycleSplits(s, k);
  }

  lemma ReceiveAgrees(s: RxState, k: nat, mode: Mode)
    requires Agrees(s, [], mode) && k <= |s.rx| && AllowsRecv(mode)
    ensures k <= s.toFill && Agrees(Receive(s, k), [], mode)
  {
    hide Inv;
    hide ExactlyOnce;
    hide InWindow;
    hide InOrder;
    ReceiveInv(s, k);
    ReceiveLedger(s, k);
    if mode == RecvFifo {
      ReceiveWindow(s, k);
    } else if mode == RecvWindow {
      ReceivedInWindow(s, k);
    }
  }

  // ---------- resubmitting one frame (recv) ----------

  /** The state once the frame at the cursor is back on the fill ring. */
  function Returned(s: RxState, p: Payload): (r: RxState)
    requires WellFormed(s)
  {
    Delivered(s.(fill := s.fill + [s.cursor]), p)
  }

  lemma ReturnedInv(s: RxState, p: Payload)
    requires Inv(s, []) && s.slots[s.cursor] == Some(p)
    ensures Inv(Returned(s, p), [])
    ensures Cycle(Returned(s, p)) == Cycle(s) + [s.cursor]
  {
    var r := Returned(s, p);
    assert Cycle(r) == Cycle(s) + [s.cursor];
    assert Cycle(r) + [] == Cycle(r) && Cycle(s) + [] == Cycle(s);
    assert s.cursor !in Cycle(s);
  }

  lemma AfterNext(c: nat, skip: nat, n: nat)
    requires c < n && 1 <= skip <= n
    ensures After(Wrap(c + 1, n), skip - 1, n - skip + 1, n) == After(c, skip, n - skip, n) + [c]
    ensures After(c, 0, skip, n) == [c] + After(Wrap(c + 1, n), 0, skip - 1, n)
  {
  }

  /** A frame that is Filled is not on the kernel's side, so the window is not empty. */
  lemma FilledMeansPending(s: RxState)
    requires Inv(s, []) && InWindow(s)
    ensures s.slots[s.cursor].Some? <==> s.toFill < s.cfg.frames
  {
    var n := s.cfg.frames;
    assert Cycle(s) + [] == Cycle(s);
    if s.toFill < n {
      AfterTail(s.cursor, 0, n, n, n - s.toFill);
      assert After(s.cursor, 0, n, n)[0] == s.cursor;
      assert s.cursor !in After(s.cursor, n - s.toFill, s.toFill, n);
    } else {
      assert Cycle(s)[0] == s.cursor;
    }
  }

  lemma ValuesFirst(slots: seq<Option<Payload>>, c: nat, rest: seq<nat>)
    requires c < |slots| && Below(rest, |slots|) && Distinct([c] + rest)
    ensures Below([c] + rest, |slots|)
    ensures Values(slots, [c] + rest) == [Value(slots[c])] + Values(slots[c := None], rest)
  {
    hide Values;
    hide Value;
    DistinctSum([c], rest);
    assert c in [c];
    var one := [c];
    assert Values(slots, one) == [Value(slots[c])];
    ValuesSum(slots, one, rest);
    ValuesElsewhere(slots, slots[c := None], rest);
  }

  lemma PendingFirst(s: RxState, p: Payload)
    requires WellFormed(s) && s.toFill < s.cfg.frames && s.slots[s.cursor] == Some(p)
    ensures Pending(s) == [p] + Pending(Returned(s, p))
  {
    var n, f := s.cfg.frames, s.cfg.frames - s.toFill;
    AfterNext(s.cursor, f, n);
    ValuesFirst(s.slots, s.cursor, After(Wrap(s.cursor + 1, n), 0, f - 1, n));
  }

  lemma ReturnedWindow(s: RxState, p: Payload)
    requires Inv(s, []) && InWindow(s) && s.slots[s.cursor] == Some(p)
    ensures s.toFill < s.cfg.frames && InWindow(Returned(s, p))
  {
    FilledMeansPending(s);
    ReturnedInv(s, p);
    AfterNext(s.cursor, s.cfg.frames - s.toFill, s.cfg.frames);
  }

  lemma ReturnedOrder(s: RxState, p: Payload)
    requires WellFormed(s) && s.toFill < s.cfg.frames && InOrder(s) && s.slots[s.cursor] == Some(p)
    ensures InOrder(Returned(s, p))
  {
    hide Pending;
    hide PayloadsOf;
    PendingFirst(s, p);
    var r := Returned(s, p);
    assert s.delivered + ([p] + Pending(r)) == r.delivered + Pending(r);
  }

  lemma ReturnedLedger(s: RxState, p: Payload)
    requires WellFormed(s) && ExactlyOnce(s) && s.slots[s.cursor] == Some(p)
    ensures ExactlyOnce(Returned(s, p))
  {
    WaitingSet(s.slots, s.cursor, None);
    assert Waiting(s.slots) == Waiting(Returned(s, p).slots) + multiset{p};
  }

  lemma ReturnedAgrees(s: RxState, p: Payload, mode: Mode)
    requires Agrees(s, [], mode) && AllowsRecv(mode) && s.slots[s.cursor] == Some(p)
    ensures Agrees(Returned(s, p), [], mode)
  {
    ReturnedInv(s, p);
    ReturnedLedger(s, p);
    if mode == RecvWindow || mode == RecvFifo {
      ReturnedWindow(s, p);
    }
    if mode == RecvFifo {
      ReturnedOrder(s, p);
    }
  }

  // ---------- processing and resubmitting a batch (recv_apply) ----------

  lemma SwappedBag<T>(a: seq<T>, b: seq<T>, all: seq<T>)
    requires all == a + b
    ensures multiset(b + a) == multiset(all)
  {
  }

  lemma ProcessedInv(s: RxState, k: nat)
    requires Inv(s, []) && k <= |s.rx|
    ensures k <= s.toFill && Inv(Processed(s, k), FramesOf(s.rx[..k]))
  {
    hide FramesOf;
    hide PayloadsOf;
    var held := FramesOf(s.rx[..k]);
    CycleSplits(s, k);
    PrefixIsFree(s, k);
    var r := Processed(s, k);
    assert Cycle(s) + [] == held + Cycle(r);
    SwappedBag(held, Cycle(r), Cycle(s) + []);
    Rearranged(Cycle(r) + held, Cycle(s) + []);
  }

  lemma SpanRotated(a: nat, k: nat, n: nat)
    requires a < n && k <= n
    ensures Span(Wrap(a + k, n), n, n) == Span(a, n, n)[k..] + Span(a, n, n)[..k]
  {
    hide Span;
    hide Below;
  }

  lemma RemainderOfSum(d: nat, k: nat, n: nat)
    requires 0 < n && k <= n
    ensures (d + k) % n == Wrap(d % n + k, n)
  {
    var q, r := d / n, d % n;
    assert d == q * n + r;
    if r + k < n {
      RemainderIsUnique(q, r + k, n);
    } else {
      assert d + k == (q + 1) * n + (r + k - n);
      RemainderIsUnique(q + 1, r + k - n, n);
    }
  }

  lemma ProcessedCycle(s: RxState, k: nat)
    requires WellFormed(s) && k <= |s.rx| && k <= s.toFill
    ensures k <= |Cycle(s)|
    ensures Cycle(Processed(s, k)) == Cycle(s)[k..] && FramesOf(s.rx[..k]) == Cycle(s)[..k]
  {
    CycleSplits(s, k);
  }

  lemma RotationStep(cycle: seq<nat>, d: nat, k: nat, n: nat)
    requires 0 < n && k <= n && cycle == Span(d % n, n, n)
    ensures cycle[k..] + cycle[..k] == Span((d + k) % n, n, n)
  {
    SpanRotated(d % n, k, n);
    RemainderOfSum(d, k, n);
  }

  lemma ProcessedRotates(s: RxState, k: nat)
    requires WellFormed(s) && k <= |s.rx| && k <= s.toFill && Rotation(s, [])
    ensures Rotation(Processed(s, k), FramesOf(s.rx[..k]))
  {
    hide Cycle;
    hide Span;
    ProcessedCycle(s, k);
    assert Cycle(s) + [] == Cycle(s);
    RotationStep(Cycle(s), |s.delivered|, k, s.cfg.frames);
  }

  lemma ProcessedOrder(s: RxState, k: nat)
    requires WellFormed(s) && k <= |s.rx| && k <= s.toFill && RingOrder(s)
    ensures RingOrder(Processed(s, k))
  {
    hide PayloadsOf;
    hide Cycle;
    CycleSplits(s, k);
    assert s.delivered + (PayloadsOf(s.rx[..k]) + PayloadsOf(s.rx[k..]))
        == (s.delivered + PayloadsOf(s.rx[..k])) + PayloadsOf(s.rx[k..]);
  }

  lemma SplitBag<T>(d: seq<T>, x: seq<T>, y: seq<T>, w: multiset<T>)
    ensures multiset(d) + w + multiset(x + y) == multiset(d + x) + w + multiset(y)
  {
  }

  lemma ProcessedLedger(s: RxState, k: nat)
    requires WellFormed(s) && k <= |s.rx| && k <= s.toFill && ExactlyOnce(s)
    ensures ExactlyOnce(Processed(s, k))
  {
    hide PayloadsOf;
    hide Waiting;
    hide Cycle;
    CycleSplits(s, k);
    SplitBag(s.delivered, PayloadsOf(s.rx[..k]), PayloadsOf(s.rx[k..]), Waiting(s.slots));
  }

  lemma ProcessedMode(s: RxState, k: nat, mode: Mode)
    requires WellFormed(s) && InMode(s, [], mode) && k <= |s.rx| && k <= s.toFill && AllowsApply(mode)
    ensures InMode(Processed(s, k), FramesOf(s.rx[..k]), mode)
  {
    hide RingOrder;
    hide Rotation;
    if mode != Mixed {
      ProcessedOrder(s, k);
    }
    if mode == ApplyFifo {
      ProcessedRotates(s, k);
    }
  }

  lemma ProcessedAgrees(s: RxState, k: nat, mode: Mode)
    requires Agrees(s, [], mode) && k <= |s.rx| && AllowsApply(mode)
    ensures k <= s.toFill && Agrees(Processed(s, k), FramesOf(s.rx[..k]), mode)
  {
    ProcessedInv(s, k);
    hide Inv;
    hide ExactlyOnce;
    hide InMode;
    ProcessedMode(s, k, mode);
    ProcessedLedger(s, k);
  }

  function Resubmitted(s: RxState, held: seq<nat>): (r: RxState) {
    s.(fill := s.fill + held, pktsDelivered := s.pktsDelivered + |held|, toFill := s.toFill + |held|)
  }

  lemma ResubmittedAgrees(s: RxState, held: seq<nat>, mode: Mode)
    requires Agrees(s, held, mode) && AllowsApply(mode)
    ensures Agrees(Resubmitted(s, held), [], mode)
  {
    hide Inv;
    hide Waiting;
    hide RingOrder;
    hide Span;
    ResubmittedInv(s, held);
    ResubmittedRing(s, held);
  }

  lemma ResubmittedInv(s: RxState, held: seq<nat>)
    requires Inv(s, held)
    ensures WellFormed(Resubmitted(s, held)) && Inv(Resubmitted(s, held), [])
    ensures Cycle(Resubmitted(s, held)) + [] == Cycle(s) + held
  {
    hide FramesOf;
    var r := Resubmitted(s, held);
    assert Cycle(r) == Cycle(s) + held;
    assert Cycle(r) + [] == Cycle(r);
  }

  lemma ResubmittedRing(s: RxState, held: seq<nat>)
    ensures RingOrder(Resubmitted(s, held)) == RingOrder(s)
  {
  }

  lemma PrefixOfThree<T>(all: seq<T>, a: seq<T>, b: seq<T>, c: seq<T>)
    requires all == a + b + c
    ensures a <= all
  {
  }

  lemma DeliveredInOrder(s: RxState, held: seq<nat>, mode: Mode)
    requires Agrees(s, held, mode)
    ensures mode == RecvFifo || mode == ApplyOnly || mode == ApplyFifo ==> s.delivered <= s.arrived
  {
    hide Inv;
    hide ExactlyOnce;
    hide InWindow;
    hide Rotation;
    hide Pending;
    hide PayloadsOf;
    if mode == RecvFifo {
      PrefixOfThree(s.arrived, s.delivered, Pending(s), PayloadsOf(s.rx));
    }
  }

  // ---------- calls and runs ----------

  /** A refill loop that ends appends the frames to the fill ring of a state the kernel has moved to. */
  lemma {:induction false} RefillAgrees(s: RxState, frames: seq<nat>, held: seq<nat>, turns: seq<Turn>, mode: Mode)
    returns (m: RxState)
    requires Agrees(s, held, mode) && AllowsTurns(turns, mode) && Below(frames, s.cfg.frames)
    ensures Agrees(m, held, mode)
    ensures m == s.(fill := m.fill, kernel := m.kernel, rx := m.rx, arrived := m.arrived)
    ensures var r := Refill(s, frames, turns);
            r == if r.Submitted? then Submitted(m.(fill := m.fill + frames)) else StillFull(m)
    decreases |turns|
  {
    hide Inv;
    hide ExactlyOnce;
    hide InMode;
    if turns == [] {
      m := s;
    } else {
      RunAgrees(s, turns[0], held, mode);
      m := Run(s, turns[0]);
      if |m.fill| + |frames| > s.cfg.fillRingSize {
        m := RefillAgrees(m, frames, held, turns[1..], mode);
      }
    }
  }

  lemma RefillAtCursorAgrees(s: RxState, p: Payload, turns: seq<Turn>, mode: Mode)
    requires Agrees(s, [], mode) && AllowsRecv(mode) && AllowsTurns(turns, mode)
    requires s.slots[s.cursor] == Some(p)
    ensures var refill := Refill(s, [s.cursor], turns);
            if refill.StillFull? then Agrees(refill.s, [], mode) else Agrees(Delivered(refill.s, p), [], mode)
  {
    hide Inv;
    hide ExactlyOnce;
    hide InMode;
    var m := RefillAgrees(s, [s.cursor], [], turns, mode);
    ReturnedAgrees(m, p, mode);
  }

  lemma TakeAtCursorAgrees(s: RxState, room: nat, turns: seq<Turn>, mode: Mode)
    requires Agrees(s, [], mode) && AllowsRecv(mode) && AllowsTurns(turns, mode)
    ensures Good(TakeAtCursor(s, room, turns), mode)
  {
    hide Inv;
    hide ExactlyOnce;
    hide InMode;
    if s.slots[s.cursor].Some? {
      RefillAtCursorAgrees(s, s.slots[s.cursor].value, turns, mode);
    }
  }

  lemma ResubmitAllAgrees(s: RxState, held: seq<nat>, ps: seq<Payload>, turns: seq<Turn>, mode: Mode)
    requires Agrees(s, held, mode) && AllowsApply(mode) && AllowsTurns(turns, mode)
    ensures Good(ResubmitAll(s, held, ps, turns), mode)
  {
    var m := RefillAgrees(s, held, held, turns, mode);
    ResubmittedAgrees(m, held, mode);
  }

  lemma RecvApplyAgrees(s: RxState, polled: bool, turns: seq<Turn>, mode: Mode)
    requires Agrees(s, [], mode) && AllowsApply(mode) && AllowsTurns(turns, mode)
    ensures Good(RecvApply(s, polled, turns), mode)
  {
    var k := Available(s, polled);
    if k == 0 {
      assert Consume(s, 0) == s;
    } else {
      ProcessedAgrees(s, k, mode);
      ResubmitAllAgrees(Processed(s, k), FramesOf(s.rx[..k]), PayloadsOf(s.rx[..k]), turns, mode);
    }
  }

  lemma StepAgrees(s: RxState, e: Event, mode: Mode)
    requires Agrees(s, [], mode) && Allows(e, mode)
    ensures Good(Step(s, e), mode)
  {
    hide Inv;
    hide ExactlyOnce;
    hide InMode;
    match e {
      case RecvCall(room, polled, turns) =>
        ReceiveAgrees(s, Available(s, polled), mode);
        TakeAtCursorAgrees(Receive(s, Available(s, polled)), room, turns, mode);
      case RecvApplyCall(polled, turns) => RecvApplyAgrees(s, polled, turns, mode);
      case KernelTurn(turn) => RunAgrees(s, turn, [], mode);
    }
  }

  ghost predicate AllowsAll(es: seq<Event>, mode: Mode) {
    forall k :: 0 <= k < |es| ==> Allows(es[k], mode)
  }

  /** Over every run of recv and recv_apply, whatever the kernel does, the bookkeeping agrees with
      the location of every frame and every packet that arrived is accounted for exactly once. In
      the restricted modes order and position are known as well. */
  lemma {:induction false} RunAllAgrees(s: RxState, es: seq<Event>, mode: Mode)
    requires Agrees(s, [], mode) && AllowsAll(es, mode)
    ensures Good(RunAll(s, es), mode)
    decreases |es|
  {
    hide Inv;
    hide ExactlyOnce;
    hide InMode;
    if es != [] {
      StepAgrees(s, es[0], mode);
      var r := Step(s, es[0]);
      if !r.Panicked? && !r.Spinning? {
        RunAllAgrees(r.s, es[1..], mode);
      }
    }
  }

  lemma {:induction false} NothingWaits(slots: seq<Option<Payload>>)
    requires forall i :: 0 <= i < |slots| ==> slots[i] == None
    ensures Waiting(slots) == multiset{}
  {
    if slots != [] {
      NothingWaits(slots[..|slots| - 1]);
    }
  }

  lemma InitCycle(cfg: RxConfig)
    requires 0 < cfg.frames <= cfg.fillRingSize
    ensures Cycle(Init(cfg)) == Interval(0, cfg.frames) == Span(0, cfg.frames, cfg.frames)
    ensures Inv(Init(cfg), [])
  {
    hide Interval;
    hide Span;
    var s := Init(cfg);
    assert Cycle(s) == s.fill;
    assert Cycle(s) + [] == Cycle(s);
  }

  lemma InitAgrees(cfg: RxConfig, mode: Mode)
    requires 0 < cfg.frames <= cfg.fillRingSize
    ensures Agrees(Init(cfg), [], mode)
  {
    var s := Init(cfg);
    NothingWaits(s.slots);
    RemainderIsUnique(0, 0, cfg.frames);
    InitCycle(cfg);
    assert Cycle(s) + [] == Cycle(s);
  }
}
