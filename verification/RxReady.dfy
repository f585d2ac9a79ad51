/** What the receive bookkeeping keeps for every configuration and every mix of calls: no frame is
    twice on the kernel's side, and no frame there is Filled. It is what keeps the kernel's writes
    away from packets that still wait, and what each method of the receive object relies on. */
module RxReady {
  import opened Sequences
  import opened Frames
  import opened RxProtocol
  import opened RxInvariant

  ghost predicate NotFilled(s: RxState, q: seq<nat>)
    requires WellFormed(s) && Below(q, s.cfg.frames)
  {
    forall i {:trigger q[i]} :: 0 <= i < |q| ==> s.slots[q[i]].None?
  }

  /** held are the frames processed by recv_apply and not yet resubmitted. */
  ghost predicate Ready(s: RxState, held: seq<nat>) {
    && WellFormed(s) && Below(held, s.cfg.frames)
    && Distinct(Cycle(s) + held) && NotFilled(s, Cycle(s) + held)
  }

  lemma InitReady(cfg: RxConfig)
    requires 0 < cfg.frames
    ensures Ready(Init(cfg), [])
  {
    assert Cycle(Init(cfg)) + [] == Init(cfg).fill;
  }

  /** There are no more descriptors to read than frames. */
  lemma DescriptorsFit(s: RxState, held: seq<nat>)
    requires Ready(s, held)
    ensures |s.rx| <= s.cfg.frames
  {
    Pigeonhole(Cycle(s) + held, s.cfg.frames);
  }

  /** The frame the kernel fills next holds no packet, neither Filled nor still on the rx ring. */
  lemma TargetIsEmpty(s: RxState, held: seq<nat>, i: nat)
    requires Ready(s, held) && i < |s.kernel|
    ensures s.slots[s.kernel[i]].None? && s.kernel[i] !in FramesOf(s.rx)
  {
    var all, a := Cycle(s) + held, |s.rx|;
    assert all[a + i] == s.kernel[i];
    forall k | 0 <= k < a ensures FramesOf(s.rx)[k] != s.kernel[i] {
      assert all[k] == FramesOf(s.rx)[k];
    }
  }

  lemma RearrangedEmpty(s: RxState, p: seq<nat>, q: seq<nat>)
    requires WellFormed(s) && Below(p, s.cfg.frames) && multiset(p) == multiset(q)
    ensures Below(q, s.cfg.frames)
    ensures NotFilled(s, p) ==> NotFilled(s, q)
  {
    Rearranged(p, q);
    forall k | 0 <= k < |q| ensures q[k] in p { assert q[k] in q; }
  }

  lemma KernelReady(s: RxState, step: KernelStep, held: seq<nat>)
    requires Ready(s, held)
    ensures Ready(Kernel(s, step), held)
  {
    hide Cycle;
    KernelMoves(s, step);
    var r := Kernel(s, step);
    CycleBelow(s);
    CycleBelow(r);
    var p, q := Cycle(s) + held, Cycle(r) + held;
    Rearranged(p, q);
    RearrangedEmpty(s, p, q);
  }

  lemma CycleBelow(s: RxState)
    requires WellFormed(s)
    ensures Below(Cycle(s), s.cfg.frames)
  {
  }

  lemma {:induction false} RunReady(s: RxState, turn: Turn, held: seq<nat>)
    requires Ready(s, held)
    ensures Ready(Run(s, turn), held)
    decreases |turn|
  {
    hide Distinct;
    hide NotFilled;
    if turn != [] {
      KernelReady(s, turn[0], held);
      RunReady(Kernel(s, turn[0]), turn[1..], held);
    }
  }

  lemma SwapParts(s: RxState, a: seq<nat>, b: seq<nat>)
    requires WellFormed(s) && Below(a + b, s.cfg.frames) && Distinct(a + b) && NotFilled(s, a + b)
    ensures Below(b + a, s.cfg.frames) && Distinct(b + a) && NotFilled(s, b + a)
    ensures Distinct(a) && forall i :: i in a ==> i !in b
  {
    hide NotFilled;
    hide WellFormed;
    Rearranged(a + b, b + a);
    RearrangedEmpty(s, a + b, b + a);
    DistinctSum(a, b);
  }

  lemma BelowParts(a: seq<nat>, b: seq<nat>, n: nat)
    requires Below(a + b, n)
    ensures Below(a, n) && Below(b, n)
  {
    assert forall i :: 0 <= i < |a| ==> (a + b)[i] == a[i];
    assert forall i :: 0 <= i < |b| ==> (a + b)[|a| + i] == b[i];
  }

  /** Consuming descriptors takes their frames off the kernel's side. */
  lemma ConsumeReady(s: RxState, k: nat)
    requires Ready(s, []) && k <= |s.rx| && k <= s.toFill
    ensures Ready(Consume(s, k), FramesOf(s.rx[..k]))
    ensures forall i :: i in FramesOf(s.rx[..k]) ==> i !in Cycle(Consume(s, k))
    ensures Distinct(FramesOf(s.rx[..k]))
  {
    hide FramesOf;
    hide Distinct;
    hide NotFilled;
    hide Below;
    CycleSplits(s, k);
    var batch, rest := FramesOf(s.rx[..k]), Cycle(Consume(s, k));
    assert Cycle(s) + [] == batch + rest && Cycle(s) + [] == Cycle(s);
    CycleBelow(s);
    SwapParts(s, batch, rest);
    BelowParts(rest, batch, s.cfg.frames);
    SameSlots(s, Consume(s, k), rest + batch);
  }

  lemma SameSlots(s: RxState, r: RxState, q: seq<nat>)
    requires WellFormed(s) && WellFormed(r) && s.slots == r.slots && s.cfg == r.cfg && Below(q, s.cfg.frames)
    ensures NotFilled(s, q) == NotFilled(r, q)
  {
  }

  lemma ReceiveReady(s: RxState, k: nat)
    requires Ready(s, []) && k <= |s.rx| && k <= s.toFill
    ensures Ready(Receive(s, k), [])
  {
    hide FramesOf;
    hide MarkFilled;
    ConsumeReady(s, k);
    var c, r := Consume(s, k), Receive(s, k);
    var cycle := Cycle(c);
    assert Cycle(r) + [] == cycle;
    DistinctSum(cycle, FramesOf(s.rx[..k]));
    forall i | 0 <= i < |cycle| ensures r.slots[cycle[i]].None? {
      assert cycle[i] in cycle;
      assert (cycle + FramesOf(s.rx[..k]))[i] == cycle[i];
    }
  }

  /** Resubmitting gives held frames back to the kernel. */
  lemma ResubmitReady(s: RxState, held: seq<nat>)
    requires Ready(s, held)
    ensures Ready(s.(fill := s.fill + held), [])
  {
    var r := s.(fill := s.fill + held);
    assert Cycle(r) + [] == Cycle(s) + held;
  }

  /** The state before the last frames were put on the fill ring. */
  function Unsubmitted(r: RxState, frames: seq<nat>): RxState
    requires |frames| <= |r.fill|
  {
    r.(fill := r.fill[..|r.fill| - |frames|])
  }

  ghost predicate Refilled(r: RxState, frames: seq<nat>, held: seq<nat>) {
    |frames| <= |r.fill| && r.fill == Unsubmitted(r, frames).fill + frames && Ready(Unsubmitted(r, frames), held)
  }

  lemma SubmittedLast(s: RxState, frames: seq<nat>, held: seq<nat>)
    requires Ready(s, held)
    ensures Refilled(s.(fill := s.fill + frames), frames, held)
  {
    hide Ready;
    assert Unsubmitted(s.(fill := s.fill + frames), frames) == s;
  }

  lemma {:induction false} RefillReady(s: RxState, frames: seq<nat>, held: seq<nat>, turns: seq<Turn>)
    requires Ready(s, held) && Below(frames, s.cfg.frames)
    ensures Refill(s, frames, turns).StillFull? ==> Ready(Refill(s, frames, turns).s, held)
    ensures Refill(s, frames, turns).Submitted? ==> Refilled(Refill(s, frames, turns).s, frames, held)
    decreases |turns|
  {
    hide Distinct;
    hide NotFilled;
    hide Refilled;
    hide Run;
    hide Cycle;
    if turns != [] {
      RunReady(s, turns[0], held);
      var s1 := Run(s, turns[0]);
      if |s1.fill| + |frames| > s.cfg.fillRingSize {
        RefillReady(s1, frames, held, turns[1..]);
      } else {
        SubmittedLast(s1, frames, held);
      }
    }
  }

  /** Handing over the frame at the cursor empties it before the kernel can take it. */
  lemma DeliveredReady(s: RxState, p: Payload)
    requires Ready(s, []) && s.slots[s.cursor].Some?
    ensures Ready(Delivered(s.(fill := s.fill + [s.cursor]), p), [])
  {
    var r := Delivered(s.(fill := s.fill + [s.cursor]), p);
    var cycle := Cycle(s);
    assert cycle + [] == cycle;
    assert Cycle(r) + [] == cycle + [s.cursor];
  }

  ghost predicate Returned(r: Outcome) {
    r.Packet? || r.Empty? || r.Applied? ==> Ready(r.s, [])
  }

  lemma TakeAtCursorReady(s: RxState, room: nat, turns: seq<Turn>)
    requires Ready(s, [])
    ensures Returned(TakeAtCursor(s, room, turns))
  {
    hide Distinct;
    hide NotFilled;
    if s.slots[s.cursor].Some? {
      RefillReady(s, [s.cursor], [], turns);
      var refill := Refill(s, [s.cursor], turns);
      if refill.Submitted? {
        var t := Unsubmitted(refill.s, [s.cursor]);
        assert refill.s == t.(fill := t.fill + [s.cursor]);
        DeliveredReady(t, s.slots[s.cursor].value);
      }
    }
  }

  lemma RecvReady(s: RxState, room: nat, polled: bool, turns: seq<Turn>)
    requires Ready(s, [])
    ensures Returned(Recv(s, room, polled, turns))
  {
    hide Distinct;
    hide NotFilled;
    hide TakeAtCursor;
    ReceiveReady(s, Available(s, polled));
    TakeAtCursorReady(Receive(s, Available(s, polled)), room, turns);
  }

  lemma ResubmitAllReady(s: RxState, held: seq<nat>, ps: seq<Payload>, turns: seq<Turn>)
    requires Ready(s, held)
    ensures Returned(ResubmitAll(s, held, ps, turns))
  {
    hide Distinct;
    RefillReady(s, held, held, turns);
    var refill := Refill(s, held, turns);
    if refill.Submitted? {
      var t := Unsubmitted(refill.s, held);
      assert refill.s == t.(fill := t.fill + held);
      ResubmitReady(t, held);
    }
  }

  lemma ProcessedReady(s: RxState, k: nat)
    requires Ready(s, []) && k <= |s.rx| && k <= s.toFill
    ensures Ready(Processed(s, k), FramesOf(s.rx[..k]))
  {
    ConsumeReady(s, k);
  }

  lemma RecvApplyReady(s: RxState, polled: bool, turns: seq<Turn>)
    requires Ready(s, [])
    ensures Returned(RecvApply(s, polled, turns))
  {
    var k := Available(s, polled);
    ConsumeReady(s, k);
    if k == 0 {
      assert Cycle(Consume(s, 0)) + [] == Cycle(Consume(s, 0)) + FramesOf(s.rx[..0]);
    } else {
      ResubmitAllReady(Processed(s, k), FramesOf(s.rx[..k]), PayloadsOf(s.rx[..k]), turns);
    }
  }

  /** Over every run from the start, with every ring size, every kernel and every mix of calls:
      whenever control is with the caller, no frame is twice on the kernel's side and no packet
      waits in a frame the kernel may write. */
  lemma {:induction false} RunAllReady(s: RxState, es: seq<Event>)
    requires Ready(s, [])
    ensures Returned(RunAll(s, es))
    decreases |es|
  {
    hide Distinct;
    hide NotFilled;
    if es != [] {
      match es[0] {
        case RecvCall(room, polled, turns) => RecvReady(s, room, polled, turns);
        case RecvApplyCall(polled, turns) => RecvApplyReady(s, polled, turns);
        case KernelTurn(turn) => RunReady(s, turn, []);
      }
      var r := Step(s, es[0]);
      if !r.Panicked? && !r.Spinning? {
        RunAllReady(r.s, es[1..]);
      }
    }
  }
}
