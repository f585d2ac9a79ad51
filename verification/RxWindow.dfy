/** When recv can be trusted after any mix of recv and recv_apply. recv looks only at the frame at
    rx_cursor, and recv_apply leaves rx_cursor where it is, so afterwards the cursor need not point at the
    frame in which the next packet arrives. */
module RxWindow {
  import opened Sequences
  import opened Frames
  import opened RxProtocol
  import opened RxInvariant
  import opened RxTheorems

  /** However the run goes on with recv and a kernel that uses frames in order, no packet is left waiting
      in a frame by a recv that reports nothing. */
  ghost predicate NeverStarves(s: RxState)
    requires WellFormed(s)
  {
    forall es: seq<Event>, room: nat, turns: seq<Turn> | AllowsAll(es, RecvFifo) && AllowsTurns(turns, RecvFifo) ::
      var r := RunAll(s, es);
      !r.Panicked? && !r.Spinning? && Recv(r.s, room, true, turns).Empty? ==>
        NoneFilled(Recv(r.s, room, true, turns).s)
  }

  /** However the run goes on like that, packets are delivered in the order they arrived. */
  ghost predicate KeepsOrder(s: RxState)
    requires WellFormed(s)
  {
    forall es: seq<Event> | AllowsAll(es, RecvFifo) ::
      !RunAll(s, es).Panicked? ==> RunAll(s, es).s.delivered <= RunAll(s, es).s.arrived
  }

  /** The frames the kernel has yet to fill, in the order in which it will, are the ones just before the
      cursor on the cycle. */
  ghost predicate Returning(s: RxState)
    requires WellFormed(s)
  {
    |s.kernel + s.fill| <= s.cfg.frames && s.kernel + s.fill == Before(s.cursor, |s.kernel + s.fill|, s.cfg.frames)
  }

  /** The state a polling recv looks at. */
  function Polled(s: RxState): (r: RxState)
    requires WellFormed(s)
    ensures WellFormed(r) && r.cfg == s.cfg
  {
    Receive(s, Available(s, true))
  }

  lemma PollsAll(s: RxState)
    requires Inv(s, [])
    ensures Polled(s) == s.(rx := [], toFill := s.toFill - |s.rx|, pktsRx := s.pktsRx + |s.rx|,
                            slots := MarkFilled(s.slots, s.rx))
  {
    CountersCount(s);
    assert s.rx[..|s.rx|] == s.rx && s.rx[|s.rx|..] == [];
  }

  lemma NothingToPoll(s: RxState)
    requires WellFormed(s) && s.rx == []
    ensures Polled(s) == s
  {
  }

  /** That is: once the rx ring is read, the Filled frames are the window at the cursor. */
  lemma ReturningIsWindow(s: RxState)
    requires Inv(s, [])
    ensures Polled(s).toFill == |s.kernel + s.fill| <= s.cfg.frames
    ensures Returning(s) <==> InWindow(Polled(s))
  {
    CountersCount(s);
    PollsAll(s);
    assert Cycle(Polled(s)) == s.kernel + s.fill;
  }

  // ---------- what a run of recv keeps ----------

  /** What is known of the state once the rx ring is read. */
  ghost predicate AfterPoll(s: RxState, mode: Mode) {
    WellFormed(s) && Agrees(s, [], Mixed) && Agrees(Polled(s), [], mode)
  }

  predicate WindowMode(mode: Mode) { mode == RecvWindow || mode == RecvFifo }

  lemma MarkOneMore(slots: seq<Option<Payload>>, batch: seq<Arrival>, a: Arrival)
    requires Below(FramesOf(batch), |slots|) && a.frame < |slots|
    ensures Below(FramesOf(batch + [a]), |slots|) && Below(FramesOf([a]), |slots|)
    ensures MarkFilled(slots, batch + [a]) == MarkFilled(MarkFilled(slots, batch), [a])
  {
    FramesOfSum(batch, [a]);
    assert FramesOf([a]) == [a.frame];
    assert (batch + [a])[..|batch|] == batch;
    assert [a][..0] == [];
  }

  /** Reading the ring before an in-order kernel step makes no difference to what is read after it. */
  lemma PollCommutes(s: RxState, step: KernelStep)
    requires WellFormed(s) && Inv(s, []) && Inv(Polled(s), []) && (step.Deliver? ==> step.i == 0)
    requires Kernel(s, step) != s
    ensures Polled(Kernel(s, step)) == Polled(Kernel(Polled(s), step))
  {
    hide Polled;
    hide Inv;
    KernelInv(s, step, []);
    KernelInv(Polled(s), step, []);
    PollsAll(s);
    PollsAll(Kernel(s, step));
    PollsAll(Kernel(Polled(s), step));
    if step.Deliver? {
      var a := Arrival(s.kernel[0], step.p);
      MarkOneMore(s.slots, s.rx, a);
      assert [] + [a] == [a];
    } else {
      assert MarkFilled(MarkFilled(s.slots, s.rx), []) == MarkFilled(s.slots, s.rx);
    }
  }

  lemma KernelAfterPoll(s: RxState, step: KernelStep, mode: Mode)
    requires AfterPoll(s, mode) && WindowMode(mode) && (step.Deliver? ==> step.i == 0)
    ensures AfterPoll(Kernel(s, step), mode)
  {
    hide Inv;
    hide ExactlyOnce;
    hide InMode;
    hide Kernel;
    hide Receive;
    if Kernel(s, step) != s {
      KernelAgrees(s, step, [], Mixed);
      KernelAgrees(Polled(s), step, [], mode);
      PollCommutes(s, step);
      var k := Kernel(Polled(s), step);
      ReceiveAgrees(k, Available(k, true), mode);
    }
  }

  lemma {:induction false} RunAfterPoll(s: RxState, turn: Turn, mode: Mode)
    requires AfterPoll(s, mode) && WindowMode(mode) && AllowsTurn(turn, RecvFifo)
    ensures AfterPoll(Run(s, turn), mode)
    decreases |turn|
  {
    hide AfterPoll;
    assert WellFormed(s) by { AfterPollIsWellFormed(s, mode); }
    if turn != [] {
      KernelAfterPoll(s, turn[0], mode);
      RunAfterPoll(Kernel(s, turn[0]), turn[1..], mode);
    }
  }

  lemma AfterPollIsWellFormed(s: RxState, mode: Mode)
    requires AfterPoll(s, mode)
    ensures WellFormed(s)
  {
  }

  lemma {:induction false} RefillAfterPoll(s: RxState, frames: seq<nat>, turns: seq<Turn>, mode: Mode)
    returns (m: RxState)
    requires WellFormed(s) && AfterPoll(s, mode) && WindowMode(mode) && AllowsTurns(turns, RecvFifo)
    requires Below(frames, s.cfg.frames)
    ensures AfterPoll(m, mode)
    ensures m == s.(fill := m.fill, kernel := m.kernel, rx := m.rx, arrived := m.arrived)
    ensures var r := Refill(s, frames, turns);
            r == if r.Submitted? then Submitted(m.(fill := m.fill + frames)) else StillFull(m)
    decreases |turns|
  {
    hide AfterPoll;
    hide Run;
    if turns == [] {
      m := s;
    } else {
      RunAfterPoll(s, turns[0], mode);
      m := Run(s, turns[0]);
      if |m.fill| + |frames| > s.cfg.fillRingSize {
        m := RefillAfterPoll(m, frames, turns[1..], mode);
      }
    }
  }

  lemma {:induction false} MarkElsewhere(slots: seq<Option<Payload>>, batch: seq<Arrival>, c: nat, v: Option<Payload>)
    requires Below(FramesOf(batch), |slots|) && c < |slots| && c !in FramesOf(batch)
    ensures MarkFilled(slots[c := v], batch) == MarkFilled(slots, batch)[c := v]
  {
    if batch != [] {
      var last := |batch| - 1;
      assert FramesOf(batch) == FramesOf(batch[..last]) + [batch[last].frame];
      MarkElsewhere(slots, batch[..last], c, v);
    }
  }

  lemma FilledIsNotOnRing(s: RxState)
    requires Inv(s, []) && s.slots[s.cursor].Some?
    ensures s.cursor !in FramesOf(s.rx)
  {
    assert forall k :: 0 <= k < |s.rx| ==> (Cycle(s) + [])[k] == FramesOf(s.rx)[k];
  }

  lemma ReturnedAfterPoll(s: RxState, p: Payload, mode: Mode)
    requires AfterPoll(s, mode) && WindowMode(mode) && s.slots[s.cursor] == Some(p)
    ensures AfterPoll(Returned(s, p), mode)
  {
    hide Inv;
    hide ExactlyOnce;
    hide InMode;
    hide Polled;
    PollsAll(s);
    FilledIsNotOnRing(s);
    ReturnedAgrees(s, p, Mixed);
    ReturnedAgrees(Polled(s), p, mode);
    PollsAll(Returned(s, p));
    MarkElsewhere(s.slots, s.rx, s.cursor, None);
    RingFits(s);
    assert Polled(Returned(s, p)) == Returned(Polled(s), p);
  }

  lemma RingFits(s: RxState)
    requires Inv(s, [])
    ensures |s.rx| <= s.toFill
  {
    CountersCount(s);
  }

  lemma TakeAfterPoll(s: RxState, room: nat, turns: seq<Turn>, mode: Mode)
    requires WellFormed(s) && AfterPoll(s, mode) && WindowMode(mode) && AllowsTurns(turns, RecvFifo)
    ensures var r := TakeAtCursor(s, room, turns); !r.Panicked? ==> AfterPoll(r.s, mode)
  {
    hide AfterPoll;
    hide Refill;
    if s.slots[s.cursor].Some? {
      var m := RefillAfterPoll(s, [s.cursor], turns, mode);
      ReturnedAfterPoll(m, s.slots[s.cursor].value, mode);
    }
  }

  lemma PolledAfterPoll(s: RxState, mode: Mode)
    requires AfterPoll(s, mode)
    ensures AfterPoll(Polled(s), mode)
  {
    hide Inv;
    hide ExactlyOnce;
    hide InMode;
    hide Polled;
    PollsAll(s);
    NothingToPoll(Polled(s));
    WeakerMode(Polled(s), []);
  }

  lemma StepAfterPoll(s: RxState, e: Event, mode: Mode)
    requires WellFormed(s) && AfterPoll(s, mode) && WindowMode(mode) && Allows(e, RecvFifo)
    ensures var r := Step(s, e); !r.Panicked? ==> AfterPoll(r.s, mode)
  {
    hide AfterPoll;
    hide TakeAtCursor;
    hide Run;
    match e {
      case RecvCall(room, polled, turns) =>
        if polled {
          PolledAfterPoll(s, mode);
          TakeAfterPoll(Polled(s), room, turns, mode);
        } else {
          assert Receive(s, 0) == s;
          TakeAfterPoll(s, room, turns, mode);
        }
      case KernelTurn(turn) => RunAfterPoll(s, turn, mode);
    }
  }

  lemma {:induction false} RunAllAfterPoll(s: RxState, es: seq<Event>, mode: Mode)
    requires WellFormed(s) && AfterPoll(s, mode) && WindowMode(mode) && AllowsAll(es, RecvFifo)
    ensures !RunAll(s, es).Panicked? ==> AfterPoll(RunAll(s, es).s, mode)
    decreases |es|
  {
    hide AfterPoll;
    hide Step;
    if es != [] {
      StepAfterPoll(s, es[0], mode);
      var r := Step(s, es[0]);
      if !r.Panicked? && !r.Spinning? { RunAllAfterPoll(r.s, es[1..], mode); }
    }
  }

  lemma NoneFilledIff(s: RxState)
    requires Inv(s, []) && InMode(s, [], RecvWindow)
    ensures s.slots[s.cursor] == None ==> NoneFilled(s)
  {
    FilledMeansPending(s);
    if s.toFill == s.cfg.frames {
      assert Cycle(s) + [] == Cycle(s);
      Pigeonhole(Cycle(s), s.cfg.frames);
    }
  }

  lemma ReturningNeverStarves(s: RxState)
    requires Agrees(s, [], Mixed) && Returning(s)
    ensures NeverStarves(s)
  {
    hide Inv;
    hide ExactlyOnce;
    hide InMode;
    hide Recv;
    hide RunAll;
    hide Returning;
    ReturningAfterPoll(s);
    forall es: seq<Event>, room: nat, turns: seq<Turn> | AllowsAll(es, RecvFifo) && AllowsTurns(turns, RecvFifo)
      ensures var r := RunAll(s, es);
              !r.Panicked? && !r.Spinning? && Recv(r.s, room, true, turns).Empty? ==>
                NoneFilled(Recv(r.s, room, true, turns).s)
    {
      RunAllAfterPoll(s, es, RecvWindow);
      var r := RunAll(s, es);
      if !r.Panicked? && !r.Spinning? { EmptyMeansNone(r.s, room, turns); }
    }
  }

  lemma ReturningAfterPoll(s: RxState)
    requires Agrees(s, [], Mixed) && Returning(s)
    ensures AfterPoll(s, RecvWindow)
  {
    hide Inv;
    hide ExactlyOnce;
    hide InWindow;
    hide Receive;
    ReceiveAgrees(s, Available(s, true), Mixed);
    ReturningIsWindow(s);
  }

  lemma EmptyMeansNone(s: RxState, room: nat, turns: seq<Turn>)
    requires AfterPoll(s, RecvWindow)
    ensures var r := Recv(s, room, true, turns); r.Empty? ==> NoneFilled(r.s)
  {
    hide Inv;
    hide ExactlyOnce;
    hide InMode;
    hide Receive;
    NoneFilledIff(Polled(s));
  }
}
