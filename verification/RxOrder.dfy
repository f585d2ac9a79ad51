/** When recv delivers in arrival order, after any mix of recv and recv_apply. */
module RxOrder {
  import opened Sequences
  import opened Frames
  import opened RxProtocol
  import opened RxInvariant
  import opened RxTheorems
  import opened RxWindow
  import opened RxStarves

  ghost predicate InTurn(s: RxState)
    requires WellFormed(s)
  {
    s.toFill <= s.cfg.frames && InOrder(s)
  }

  lemma InTurnKeepsOrder(s: RxState, es: seq<Event>)
    requires Agrees(s, [], Mixed) && Returning(s) && InTurn(Polled(s)) && AllowsAll(es, RecvFifo)
    ensures !RunAll(s, es).Panicked? ==> RunAll(s, es).s.delivered <= RunAll(s, es).s.arrived
  {
    hide Inv;
    hide ExactlyOnce;
    hide InWindow;
    hide InOrder;
    hide Returning;
    hide Polled;
    hide RunAll;
    ReturningAfterPoll(s);
    RunAllAfterPoll(s, es, RecvFifo);
    var r := RunAll(s, es);
    if !r.Panicked? {
      PollsAll(r.s);
      DeliveredInOrder(Polled(r.s), [], RecvFifo);
    }
  }

  /** recv hands over the packet at the cursor, with a kernel that only takes. */
  lemma HandOne(s: RxState) returns (e: Event, u: RxState)
    requires WellFormed(s) && Agrees(s, [], RecvWindow) && s.rx == [] && 1 <= s.cfg.fillRingSize
    requires s.toFill < s.cfg.frames
    ensures Allows(e, RecvFifo) && e.RecvCall? && e.polled && Step(s, e).Packet? && u == Step(s, e).s
    ensures WellFormed(u) && Agrees(u, [], RecvWindow) && u.rx == [] && u.cfg == s.cfg
    ensures u.toFill == s.toFill + 1 && u.arrived == s.arrived
    ensures s.delivered + Pending(s) == u.delivered + Pending(u)
  {
    hide Inv;
    hide ExactlyOnce;
    hide InMode;
    hide Pending;
    hide TakeAtCursor;
    hide Receive;
    WindowHead(s);
    var p := s.slots[s.cursor].value;
    NothingToPoll(s);
    OneRecv(s, p);
    TakesAreAllowed(|s.fill|);
    e := RecvCall(|p|, true, [Takes(|s.fill|)]);
    assert Allows(e, RecvWindow) && Allows(e, RecvFifo);
    PolledRecv(s, e);
    StepAgrees(s, e, RecvWindow);
    u := Step(s, e).s;
    NextPending(s, u, p);
  }

  /** recv, one packet after the other. */
  lemma {:induction false} DeliverAll(s: RxState) returns (es: seq<Event>, t: RxState)
    requires WellFormed(s) && Agrees(s, [], RecvWindow) && s.rx == [] && 1 <= s.cfg.fillRingSize
    requires s.toFill <= s.cfg.frames
    ensures AllowsAll(es, RecvFifo) && RunAll(s, es) == Applied(t, [])
    ensures t.delivered == s.delivered + Pending(s) && t.arrived == s.arrived
    ensures es == [] <==> s.toFill == s.cfg.frames
    ensures es != [] ==> es[0].RecvCall? && es[0].polled
    decreases s.cfg.frames - s.toFill
  {
    hide Agrees;
    hide Pending;
    hide RunAll;
    hide Step;
    hide Allows;
    if s.toFill == s.cfg.frames {
      es, t := [], s;
      RunAllNothing(s);
      NothingPending(s);
    } else {
      var e, u := HandOne(s);
      var rest, v := DeliverAll(u);
      RunAllFirst(s, e, rest);
      es, t := [e] + rest, v;
    }
  }

  lemma NothingPending(s: RxState)
    requires WellFormed(s) && s.toFill == s.cfg.frames
    ensures s.delivered + Pending(s) == s.delivered
  {
  }

  lemma WindowHead(s: RxState)
    requires Inv(s, []) && InMode(s, [], RecvWindow)
    ensures s.toFill <= s.cfg.frames && (s.slots[s.cursor].Some? <==> s.toFill < s.cfg.frames)
    ensures s.toFill == s.cfg.frames ==> Pending(s) == []
  {
    FilledMeansPending(s);
  }

  lemma NextPending(s: RxState, u: RxState, p: Payload)
    requires WellFormed(s) && WellFormed(u) && s.toFill < s.cfg.frames && s.slots[s.cursor] == Some(p)
    requires u.cfg == s.cfg && u.slots == s.slots[s.cursor := None] && u.toFill == s.toFill + 1
    requires u.cursor == Wrap(s.cursor + 1, s.cfg.frames) && u.delivered == s.delivered + [p]
    ensures s.delivered + Pending(s) == u.delivered + Pending(u)
  {
    PendingFirst(s, p);
    hide Pending;
    PendingOnly(u, Returned(s, p));
    assert s.delivered + ([p] + Pending(u)) == s.delivered + [p] + Pending(u);
  }

  lemma PendingOnly(u: RxState, v: RxState)
    requires WellFormed(u) && u.toFill <= u.cfg.frames && WellFormed(v)
    requires u.cfg == v.cfg && u.slots == v.slots && u.toFill == v.toFill && u.cursor == v.cursor
    ensures Pending(u) == Pending(v)
  {
  }

  lemma PrefixOfSameLength<T>(a: seq<T>, b: seq<T>)
    requires a <= b && |a| == |b|
    ensures a == b
  {
  }

  lemma SameFirstRecv(s: RxState, es: seq<Event>)
    requires WellFormed(s) && Polled(s).rx == [] && es != [] && es[0].RecvCall? && es[0].polled
    ensures RunAll(s, es) == RunAll(Polled(s), es)
  {
    hide TakeAtCursor;
    hide Receive;
    NothingToPoll(Polled(s));
  }

  /** If the packets that wait are not in turn, handing them all over shows it. */
  lemma OutOfTurn(s: RxState)
    requires Agrees(s, [], Mixed) && Returning(s) && KeepsOrder(s) && 1 <= s.cfg.fillRingSize
    ensures InTurn(Polled(s))
  {
    hide Inv;
    hide ExactlyOnce;
    hide InWindow;
    hide Returning;
    hide Polled;
    hide RunAll;
    hide Pending;
    ReturningAfterPoll(s);
    PollsAll(s);
    var s1 := Polled(s);
    CountersCount(s);
    WindowHead(s1);
    var es, t := DeliverAll(s1);
    if es == [] {
      assert s.rx == [];
      NothingToPoll(s);
    } else {
      SameFirstRecv(s, es);
    }
    assert t.delivered <= t.arrived;
    AllCounted(s1);
    PrefixOfSameLength(s1.delivered + Pending(s1), s1.arrived);
    assert PayloadsOf(s1.rx) == [];
  }

  lemma AllCounted(s: RxState)
    requires Inv(s, []) && s.rx == []
    ensures s.toFill <= s.cfg.frames && |s.delivered + Pending(s)| == |s.arrived|
  {
    CountersCount(s);
  }

  /** Packets arrive until the frame at the cursor has one, and recv hands that one over. */
  lemma {:induction false} FillCursor(s: RxState, q: nat, y: Payload) returns (es: seq<Event>, t: RxState)
    requires Agrees(s, [], Mixed) && s.rx == [] && s.slots[s.cursor] == None
    requires q < |s.kernel + s.fill| && (s.kernel + s.fill)[q] == s.cursor
    requires 1 <= s.cfg.rxRingSize && 1 <= s.cfg.fillRingSize
    ensures AllowsAll(es, RecvFifo) && RunAll(s, es) == Applied(t, [])
    ensures t.delivered == s.delivered + [y] && s.arrived <= t.arrived
    decreases q
  {
    hide Inv;
    hide ExactlyOnce;
    hide InMode;
    hide Run;
    hide RunAll;
    hide TakeAtCursor;
    hide Polled;
    var turn := OneArrival(s, y);
    var s1 := Run(s, turn);
    RunAgrees(s, turn, [], Mixed);
    var f := (s.kernel + s.fill)[0];
    ArrivalRead(s, s1, f, y);
    PollsAll(s1);
    var s2 := Polled(s1);
    ReadAgrees(s1);
    RunAllFirst(s, KernelTurn(turn), []);
    if q == 0 {
      OneRecv(s2, y);
      TakesAreAllowed(|s2.fill|);
      var e := RecvCall(|y|, true, [Takes(|s2.fill|)]);
      PolledRecv(s1, e);
      t := Step(s1, e).s;
      es := [KernelTurn(turn)] + ([e] + []);
      RunAllFirst(s, KernelTurn(turn), [e] + []);
      RunAllFirst(s1, e, []);
      RunAllNothing(t);
    } else {
      var e := RecvCall(0, true, []);
      PolledRecv(s1, e);
      NothingThere(s2);
      var rest, v := FillCursor(s2, q - 1, y);
      es, t := [KernelTurn(turn)] + ([e] + rest), v;
      RunAllFirst(s, KernelTurn(turn), [e] + rest);
      RunAllFirst(s1, e, rest);
    }
  }

  lemma PolledRecv(s: RxState, e: Event)
    requires WellFormed(s) && e.RecvCall? && e.polled
    ensures Step(s, e) == TakeAtCursor(Polled(s), e.room, e.turns)
  {
    hide TakeAtCursor;
  }

  lemma NothingThere(s: RxState)
    requires WellFormed(s) && s.slots[s.cursor] == None
    ensures TakeAtCursor(s, 0, []) == Empty(s)
  {
  }

  lemma ArrivalRead(s: RxState, t: RxState, f: nat, y: Payload)
    requires Inv(s, []) && Inv(t, []) && s.rx == [] && t.rx == [Arrival(f, y)] && t.slots == s.slots
    requires t.cursor == s.cursor && s.kernel + s.fill != [] && f == (s.kernel + s.fill)[0] && t.cfg == s.cfg
    ensures f < s.cfg.frames && Polled(t).slots == s.slots[f := Some(y)] && Polled(t).rx == []
    ensures forall i :: 0 < i < |s.kernel + s.fill| ==> (s.kernel + s.fill)[i] != f
  {
    hide Polled;
    PollsAll(t);
    DistinctQueue(s);
    assert FramesOf(t.rx) == [f];
    assert t.rx[..0] == [];
  }

  /** A state in which recv misses a packet breaks order when the next packet reaches the cursor. */
  lemma StarvedBreaksOrder(s: RxState) returns (es: seq<Event>)
    requires Agrees(s, [], Mixed) && 1 <= s.cfg.rxRingSize && 1 <= s.cfg.fillRingSize
    requires Recv(s, 0, true, []).Empty? && !NoneFilled(Recv(s, 0, true, []).s)
    ensures AllowsAll(es, RecvFifo) && RunAll(s, es).Applied?
    ensures !(RunAll(s, es).s.delivered <= RunAll(s, es).s.arrived)
  {
    hide Inv;
    hide ExactlyOnce;
    hide InMode;
    hide RunAll;
    hide Receive;
    PollsAll(s);
    ReadAgrees(s);
    var s1 := Polled(s);
    var q := CursorIsQueued(s1);
    var y := s1.arrived[|s1.delivered|] + [0];
    var es1, t := FillCursor(s1, q, y);
    var e := RecvCall(0, true, []);
    assert Allows(e, RecvFifo);
    es := [e] + es1;
    RunAllFirst(s, e, es1);
    NotPrefix(s1.delivered, y, s1.arrived, t.arrived);
  }

  lemma NotPrefix(d: seq<Payload>, y: Payload, a: seq<Payload>, b: seq<Payload>)
    requires |d| < |a| && a <= b && y != a[|d|]
    ensures !(d + [y] <= b)
  {
    assert (d + [y])[|d|] == y && b[|d|] == a[|d|];
  }

  lemma CursorIsQueued(s: RxState) returns (q: nat)
    requires Inv(s, []) && s.rx == [] && s.slots[s.cursor] == None && !NoneFilled(s)
    ensures q < |s.kernel + s.fill| && (s.kernel + s.fill)[q] == s.cursor && |s.delivered| < |s.arrived|
  {
    DistinctQueue(s);
    CountersCount(s);
    var i :| 0 <= i < |s.slots| && s.slots[i] != None;
    assert i in FilledFrames(s);
    q :| 0 <= q < |s.kernel + s.fill| && (s.kernel + s.fill)[q] == s.cursor;
  }

  lemma {:induction false} RunOn(s: RxState, a: seq<Event>, b: seq<Event>)
    requires WellFormed(s) && !RunAll(s, a).Panicked? && !RunAll(s, a).Spinning?
    ensures RunAll(s, a + b) == RunAll(RunAll(s, a).s, b)
    decreases |a|
  {
    hide Step;
    if a == [] {
      assert a + b == b;
    } else {
      assert a + b == [a[0]] + (a[1..] + b);
      RunAllFirst(s, a[0], a[1..] + b);
      RunOn(Step(s, a[0]).s, a[1..], b);
    }
  }

  lemma NotReturningBreaksOrder(s: RxState)
    requires Agrees(s, [], Mixed) && !Returning(s) && 1 <= s.cfg.rxRingSize && 1 <= s.cfg.fillRingSize
    ensures !KeepsOrder(s)
  {
    hide Inv;
    hide ExactlyOnce;
    hide InMode;
    hide Returning;
    hide Recv;
    hide RunAll;
    var es := Starved(s);
    assert AllowsAll(es, Mixed) by { AllowedInMixed(es); }
    RunAllAgrees(s, es, Mixed);
    var more := StarvedBreaksOrder(RunAll(s, es).s);
    RunOn(s, es, more);
    assert AllowsAll(es + more, RecvFifo);
  }

  lemma AllowedInMixed(es: seq<Event>)
    requires AllowsAll(es, RecvFifo)
    ensures AllowsAll(es, Mixed)
  {
    forall k | 0 <= k < |es| ensures Allows(es[k], Mixed) {
      assert Allows(es[k], RecvFifo);
    }
  }

  /** And every later run of recv delivers in arrival order exactly when, moreover, the packets that
      already wait are in turn from the cursor on. */
  lemma RecvStaysInOrder(s: RxState)
    requires Agrees(s, [], Mixed) && 1 <= s.cfg.rxRingSize && 1 <= s.cfg.fillRingSize
    ensures KeepsOrder(s) <==> Returning(s) && InTurn(Polled(s))
  {
    hide RunAll;
    hide InTurn;
    if !Returning(s) {
      NotReturningBreaksOrder(s);
    } else if InTurn(Polled(s)) {
      forall es: seq<Event> | AllowsAll(es, RecvFifo)
        ensures !RunAll(s, es).Panicked? ==> RunAll(s, es).s.delivered <= RunAll(s, es).s.arrived
      {
        InTurnKeepsOrder(s, es);
      }
    } else if KeepsOrder(s) {
      OutOfTurn(s);
    }
  }
}
