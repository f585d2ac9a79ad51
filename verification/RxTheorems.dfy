/** Consequences of the receive invariant: what the counters count, that refilling never has to
    wait, which packet recv hands over, how recv_apply relates to recv, and when the two mix. */
module RxTheorems {
  import opened Sequences
  import opened Frames
  import opened RxProtocol
  import opened RxInvariant

  // ---------- counters ----------

  ghost function FilledFrames(s: RxState): (q: set<nat>)
    requires WellFormed(s)
  {
    set i: nat | i < s.cfg.frames && s.slots[i].Some?
  }

  /** n_frames_to_be_filled counts the frames on the kernel's side and, with the Filled ones, all
      frames; pkts_rx - pkts_rx_delivered is the number of Filled frames; the rx ring never holds
      more than the buffer passed to consume. */
  lemma CountersCount(s: RxState)
    requires Inv(s, [])
    ensures s.toFill == |FramesOf(s.rx)| + |s.kernel| + |s.fill|
    ensures s.toFill + |FilledFrames(s)| == s.cfg.frames
    ensures s.pktsRx - s.pktsDelivered == |FilledFrames(s)|
    ensures |s.rx| <= s.toFill <= s.cfg.frames
  {
    var n := s.cfg.frames;
    assert Cycle(s) + [] == Cycle(s);
    DistinctCount(Cycle(s));
    assert Below(Cycle(s), n);
    assert FilledFrames(s) == Range(n) - Elements(Cycle(s));
    assert Elements(Cycle(s)) <= Range(n);
  }

  // ---------- refilling does not wait ----------

  /** When the fill ring can hold all rx frames, resubmission succeeds at the first attempt,
      whatever the kernel has done so far and does before it. */
  lemma RefillDoesNotWait(s: RxState, frames: seq<nat>, held: seq<nat>, turns: seq<Turn>)
    requires Agrees(s, held, Mixed) && s.cfg.frames <= s.cfg.fillRingSize && turns != []
    requires (frames == held) || (held == [] && frames == [s.cursor] && s.slots[s.cursor].Some?)
    ensures var m := Run(s, turns[0]);
            Refill(s, frames, turns) == Submitted(m.(fill := m.fill + frames))
  {
    hide Inv;
    hide ExactlyOnce;
    hide InMode;
    RunAgrees(s, turns[0], held, Mixed);
    if frames == held {
      RoomForHeld(Run(s, turns[0]), held);
    } else {
      RoomForCursor(Run(s, turns[0]));
    }
  }

  lemma RoomForHeld(s: RxState, held: seq<nat>)
    requires Inv(s, held)
    ensures |s.fill| + |held| <= s.cfg.frames
  {
    assert Below(Cycle(s), s.cfg.frames);
    assert Below(Cycle(s) + held, s.cfg.frames);
    Pigeonhole(Cycle(s) + held, s.cfg.frames);
  }

  lemma RoomForCursor(s: RxState)
    requires Inv(s, []) && s.slots[s.cursor].Some?
    ensures |s.fill| + 1 <= s.cfg.frames
  {
    assert Cycle(s) + [] == Cycle(s);
    assert s.cursor !in Cycle(s);
    Pigeonhole(Cycle(s) + [s.cursor], s.cfg.frames);
  }

  // ---------- recv only, in-order kernel ----------

  lemma OldestAtCursor(s: RxState, p: Payload)
    requires WellFormed(s) && s.toFill < s.cfg.frames && InOrder(s) && s.slots[s.cursor] == Some(p)
    ensures |s.delivered| < |s.arrived| && s.arrived[|s.delivered|] == p
  {
    PendingFirst(s, p);
    hide Pending;
    hide PayloadsOf;
    assert s.arrived == s.delivered + ([p] + Pending(Returned(s, p))) + PayloadsOf(s.rx);
  }

  lemma CursorIsFilled(s: RxState)
    requires Inv(s, []) && InMode(s, [], RecvFifo)
    ensures if FilledFrames(s) == {} then s.slots[s.cursor] == None
            else
              && s.slots[s.cursor].Some? && |s.delivered| < |s.arrived|
              && s.arrived[|s.delivered|] == s.slots[s.cursor].value
  {
    CountersCount(s);
    FilledMeansPending(s);
    hide Inv;
    hide InOrder;
    hide InWindow;
    if s.toFill < s.cfg.frames {
      OldestAtCursor(s, s.slots[s.cursor].value);
    }
  }

  /** The second half of recv on a state that has consumed the ring. */
  lemma TakesTheOldest(s: RxState, room: nat, turns: seq<Turn>)
    requires Agrees(s, [], RecvFifo) && AllowsTurns(turns, RecvFifo)
    requires s.cfg.frames <= s.cfg.fillRingSize && turns != []
    ensures var r := TakeAtCursor(s, room, turns);
            if FilledFrames(s) == {} then r == Empty(s)
            else
              && |s.delivered| < |s.arrived|
              && var p := s.arrived[|s.delivered|];
                 if |p| > room then r.Panicked? else r.Packet? && r.p == p && r.s.delivered == s.delivered + [p]
  {
    hide Inv;
    hide ExactlyOnce;
    hide InMode;
    CursorIsFilled(s);
    if s.slots[s.cursor].Some? {
      WeakerMode(s, []);
      RefillDoesNotWait(s, [s.cursor], [], turns);
    }
  }

  lemma WeakerMode(s: RxState, held: seq<nat>)
    requires Inv(s, held) && ExactlyOnce(s)
    ensures Agrees(s, held, Mixed)
  {
  }

  /** recv hands over the oldest undelivered packet whenever any frame is Filled after it consumed
      the ring, and reports nothing only if none is. */
  lemma RecvHandsOverTheOldest(s: RxState, room: nat, polled: bool, turns: seq<Turn>)
    requires Agrees(s, [], RecvFifo) && AllowsTurns(turns, RecvFifo)
    requires s.cfg.frames <= s.cfg.fillRingSize && turns != []
    ensures var s1 := Receive(s, Available(s, polled));
            var r := Recv(s, room, polled, turns);
            if FilledFrames(s1) == {} then r == Empty(s1)
            else
              && |s.delivered| < |s.arrived|
              && var p := s.arrived[|s.delivered|];
                 if |p| > room then r.Panicked? else r.Packet? && r.p == p && r.s.delivered == s.delivered + [p]
  {
    hide Inv;
    hide ExactlyOnce;
    hide InMode;
    var k := Available(s, polled);
    ReceiveAgrees(s, k, RecvFifo);
    TakesTheOldest(Receive(s, k), room, turns);
  }

  // ---------- recv_apply ----------

  /** recv_apply shows the closure exactly the packets at the head of the ring, once each and in
      arrival order, before any frame is resubmitted, and returns exactly those frames, in that
      order, to the fill ring. */
  lemma ApplySeesTheRing(s: RxState, polled: bool, turns: seq<Turn>)
    requires Agrees(s, [], ApplyOnly)
    requires s.cfg.frames <= s.cfg.fillRingSize && turns != []
    ensures var k := Available(s, polled);
            var r := RecvApply(s, polled, turns);
            && r.Applied?
            && r.ps == s.arrived[|s.delivered|..|s.delivered| + k]
            && r.s.delivered == s.delivered + r.ps
            && (polled ==> k == |s.rx|)
            && (k > 0 ==> r.s.fill == Run(Processed(s, k), turns[0]).fill + FramesOf(s.rx[..k]))
  {
    hide Inv;
    hide ExactlyOnce;
    var k := Available(s, polled);
    CountersCount(s);
    RingPrefix(s, k);
    if k > 0 {
      ProcessedAgrees(s, k, ApplyOnly);
      WeakerMode(Processed(s, k), FramesOf(s.rx[..k]));
      RefillDoesNotWait(Processed(s, k), FramesOf(s.rx[..k]), FramesOf(s.rx[..k]), turns);
    }
  }

  lemma RingPrefix(s: RxState, k: nat)
    requires WellFormed(s) && RingOrder(s) && k <= |s.rx|
    ensures PayloadsOf(s.rx[..k]) == s.arrived[|s.delivered|..|s.delivered| + k]
  {
    CycleSplits(s, k);
  }

  lemma SkippedPrefix<T>(all: seq<T>, a: seq<T>, b: seq<T>, c: seq<T>, k: nat)
    requires all == a + b + c && k <= |c|
    ensures c[..k] == all[|a| + |b|..|a| + |b| + k]
  {
  }

  /** After recv the batch form overtakes: it shows the closure the packets on the ring, that is the
      undelivered packets without the ones that wait in Filled frames, exactly as many as those are. */
  lemma ApplyOvertakesFilled(s: RxState, polled: bool, turns: seq<Turn>)
    requires Agrees(s, [], RecvFifo) && s.cfg.frames <= s.cfg.fillRingSize && turns != []
    ensures var k := Available(s, polled);
            var r := RecvApply(s, polled, turns);
            var first := |s.delivered| + |FilledFrames(s)|;
            r.Applied? && first + k <= |s.arrived| && r.ps == s.arrived[first..first + k]
  {
    hide Inv;
    hide ExactlyOnce;
    hide InMode;
    hide RecvApply;
    hide Pending;
    hide PayloadsOf;
    hide FilledFrames;
    var k := Available(s, polled);
    WeakerMode(s, []);
    ClosureSees(s, polled, turns);
    CountersCount(s);
    WaitingThenRing(s);
    SkippedPrefix(s.arrived, s.delivered, Pending(s), PayloadsOf(s.rx), k);
    PayloadsPrefix(s.rx, k);
  }

  /** In any run recv_apply shows the closure the packets at the head of the ring and returns. */
  lemma ClosureSees(s: RxState, polled: bool, turns: seq<Turn>)
    requires Agrees(s, [], Mixed) && s.cfg.frames <= s.cfg.fillRingSize && turns != []
    ensures var k := Available(s, polled);
            RecvApply(s, polled, turns).Applied? && RecvApply(s, polled, turns).ps == PayloadsOf(s.rx[..k])
  {
    hide Inv;
    hide ExactlyOnce;
    hide InMode;
    hide PayloadsOf;
    hide Run;
    var k := Available(s, polled);
    if k > 0 {
      ProcessedAgrees(s, k, Mixed);
      RefillDoesNotWait(Processed(s, k), FramesOf(s.rx[..k]), FramesOf(s.rx[..k]), turns);
    } else {
      NoPayloads(s.rx);
    }
  }

  lemma NoPayloads(q: seq<Arrival>)
    ensures PayloadsOf(q[..0]) == []
  {
  }

  lemma PayloadsPrefix(q: seq<Arrival>, k: nat)
    requires k <= |q|
    ensures PayloadsOf(q[..k]) == PayloadsOf(q)[..k]
  {
  }

  lemma WaitingThenRing(s: RxState)
    requires WellFormed(s) && InMode(s, [], RecvFifo)
    ensures s.toFill <= s.cfg.frames && |Pending(s)| == s.cfg.frames - s.toFill
    ensures s.arrived == s.delivered + Pending(s) + PayloadsOf(s.rx)
  {
  }

  // ---------- the batch form agrees with the simple one ----------

  function Recvs(m: nat, room: nat): seq<Event> {
    if m == 0 then [] else [RecvCall(room, true, NoTurns())] + Recvs(m - 1, room)
  }

  /** Every packet not yet delivered fits the buffer. */
  ghost predicate AllFit(s: RxState, room: nat) {
    forall k {:trigger s.arrived[k]} :: |s.delivered| <= k < |s.arrived| ==> |s.arrived[k]| <= room
  }

  lemma StillFit(s: RxState, r: RxState, m: nat, room: nat)
    requires Inv(s, []) && Inv(r, []) && Moved(s, r, m) && AllFit(s, room)
    ensures AllFit(r, room)
  {
  }

  /** One recv with nothing on the ring and no kernel step: only the oldest Filled frame moves. */
  lemma QuietRecv(s: RxState, room: nat)
    requires Agrees(s, [], RecvFifo) && s.cfg.frames <= s.cfg.fillRingSize
    requires s.rx == [] && s.toFill < s.cfg.frames && AllFit(s, room)
    ensures var r := Recv(s, room, true, NoTurns());
            && r.Packet? && Agrees(r.s, [], RecvFifo) && Moved(s, r.s, 1)
  {
    hide Inv;
    hide ExactlyOnce;
    hide InMode;
    QuietReceive(s);
    WaitingAtCursor(s);
    hide Receive;
    hide Values;
    var turns := NoTurns();
    assert turns[0] == [] && AllowsTurn(turns[0], RecvFifo);
    WeakerMode(s, []);
    RefillDoesNotWait(s, [s.cursor], [], turns);
    TakeAtCursorAgrees(s, room, turns, RecvFifo);
  }

  /** One turn in which the kernel does nothing. */
  function NoTurns(): seq<Turn> { [[]] }

  lemma QuietReceive(s: RxState)
    requires WellFormed(s)
    ensures Receive(s, 0) == s && Consume(s, 0) == s
  {
  }

  lemma WaitingAtCursor(s: RxState)
    requires Inv(s, []) && InMode(s, [], RecvFifo) && s.toFill < s.cfg.frames
    ensures s.slots[s.cursor].Some? && |s.delivered| < |s.arrived|
    ensures s.slots[s.cursor].value == s.arrived[|s.delivered|]
  {
    CountersCount(s);
    CursorIsFilled(s);
  }

  /** What m quiet deliveries change that does not follow from the invariant. */
  ghost predicate Moved(s: RxState, t: RxState, m: nat) {
    && t.cfg == s.cfg && t.rx == s.rx && t.kernel == s.kernel && t.arrived == s.arrived
    && t.pktsRx == s.pktsRx && t.toFill == s.toFill + m && t.pktsDelivered == s.pktsDelivered + m
    && s.cursor < s.cfg.frames && m <= s.cfg.frames && t.cursor == Wrap(s.cursor + m, s.cfg.frames)
  }

  /** m quiet deliveries. */
  ghost predicate Quietly(r: Outcome, s: RxState, m: nat) {
    r.Applied? && Agrees(r.s, [], RecvFifo) && Moved(s, r.s, m)
  }

  lemma NoRecvs(s: RxState, room: nat)
    requires Agrees(s, [], RecvFifo)
    ensures Quietly(RunAll(s, Recvs(0, room)), s, 0)
  {
    hide Inv;
    hide ExactlyOnce;
    hide InMode;
  }

  lemma MoreRecvs(s: RxState, m: nat, room: nat)
    requires Agrees(s, [], RecvFifo) && s.cfg.frames <= s.cfg.fillRingSize
    requires s.rx == [] && 0 < m && s.toFill + m <= s.cfg.frames && AllFit(s, room)
    requires var r := Recv(s, room, true, NoTurns());
             r.Packet? && Quietly(RunAll(r.s, Recvs(m - 1, room)), r.s, m - 1)
    ensures Quietly(RunAll(s, Recvs(m, room)), s, m)
  {
    hide Inv;
    hide ExactlyOnce;
    hide InMode;
    hide Recv;
    hide RunAll;
    hide Recvs;
    hide NoTurns;
    QuietRecv(s, room);
    FirstOfRecvs(s, m, room);
    var a := Recv(s, room, true, NoTurns()).s;
    MovedTwice(s, a, RunAll(a, Recvs(m - 1, room)).s, m);
  }

  lemma {:induction false} QuietRecvs(s: RxState, m: nat, room: nat)
    requires Agrees(s, [], RecvFifo) && s.cfg.frames <= s.cfg.fillRingSize
    requires s.rx == [] && s.toFill + m <= s.cfg.frames && AllFit(s, room)
    ensures Quietly(RunAll(s, Recvs(m, room)), s, m)
    decreases m
  {
    hide Inv;
    hide ExactlyOnce;
    hide InMode;
    hide Quietly;
    hide Recv;
    hide RunAll;
    hide Recvs;
    hide NoTurns;
    if m == 0 {
      NoRecvs(s, room);
    } else {
      QuietRecv(s, room);
      StillFit(s, Recv(s, room, true, NoTurns()).s, 1, room);
      QuietRecvs(Recv(s, room, true, NoTurns()).s, m - 1, room);
      MoreRecvs(s, m, room);
    }
  }

  lemma FirstOfRecvs(s: RxState, m: nat, room: nat)
    requires WellFormed(s) && m > 0
    requires Recv(s, room, true, NoTurns()).Packet?
    ensures RunAll(s, Recvs(m, room)) == RunAll(Recv(s, room, true, NoTurns()).s, Recvs(m - 1, room))
  {
    hide Recv;
    hide NoTurns;
    RunAllFirst(s, RecvCall(room, true, NoTurns()), Recvs(m - 1, room));
  }

  lemma MovedTwice(s: RxState, a: RxState, b: RxState, m: nat)
    requires 0 < m <= s.cfg.frames && Moved(s, a, 1) && Moved(a, b, m - 1)
    ensures Moved(s, b, m)
  {
  }

  /** Two aligned states with nothing Filled and nothing on the ring that agree on what the kernel
      holds, what arrived and the counters, and whose cursors are where their cycles start, agree on
      everything else. */
  lemma SameBoundary(t: RxState, u: RxState)
    requires Inv(t, []) && Inv(u, []) && InWindow(t) && InWindow(u) && InOrder(t) && InOrder(u)
    requires t.cfg == u.cfg && t.rx == u.rx == [] && t.kernel == u.kernel && t.arrived == u.arrived
    requires t.cursor == u.cursor && t.toFill == u.toFill == t.cfg.frames
    ensures t.fill == u.fill && t.slots == u.slots && t.delivered == u.delivered
  {
    assert t.fill == Cycle(t)[|t.kernel|..] && u.fill == Cycle(u)[|u.kernel|..];
    AllDelivered(t);
    AllDelivered(u);
  }

  lemma AllDelivered(s: RxState)
    requires Inv(s, []) && InWindow(s) && InOrder(s) && s.rx == [] && s.toFill == s.cfg.frames
    ensures s.delivered == s.arrived && NoneFilled(s)
  {
    assert Pending(s) == [] && PayloadsOf(s.rx) == [];
    assert Cycle(s) + [] == Cycle(s);
    Pigeonhole(Cycle(s), s.cfg.frames);
  }

  /** u is aligned, holds nothing, and differs from s as after m more packets. */
  ghost predicate Emptied(s: RxState, u: RxState, m: nat) {
    && WellFormed(u) && u.toFill == s.cfg.frames == u.cfg.frames
    && Inv(u, []) && InWindow(u) && InOrder(u)
    && u.cfg == s.cfg && u.rx == [] && u.kernel == s.kernel && u.arrived == s.arrived
    && u.pktsRx == s.pktsRx + m && u.pktsDelivered == s.pktsDelivered + m
  }

  /** One recv_apply from an aligned state with nothing Filled is aligned again if the cursor is
      moved on by the number of packets it processed. */
  lemma ApplyThenMoveCursor(s: RxState)
    requires WellFormed(s) && Agrees(s, [], RecvFifo) && s.toFill == s.cfg.frames <= s.cfg.fillRingSize
    ensures RecvApply(s, true, NoTurns()).Applied? && |s.rx| <= s.cfg.frames
    ensures Emptied(s, RecvApply(s, true, NoTurns()).s.(cursor := Wrap(s.cursor + |s.rx|, s.cfg.frames)), |s.rx|)
  {
    CountersCount(s);
    AppliedState(s);
    var u := RecvApply(s, true, NoTurns()).s.(cursor := Wrap(s.cursor + |s.rx|, s.cfg.frames));
    AppliedInWindow(s, u);
    AppliedInOrder(s, u);
  }

  /** What recv_apply leaves behind when no kernel step comes in between. */
  lemma AppliedState(s: RxState)
    requires Agrees(s, [], RecvFifo) && s.toFill == s.cfg.frames <= s.cfg.fillRingSize
    ensures var m := |s.rx|;
            var r := RecvApply(s, true, NoTurns());
            && r.Applied? && Inv(r.s, [])
            && r.s == s.(rx := [], fill := s.fill + FramesOf(s.rx), delivered := s.delivered + PayloadsOf(s.rx),
                         pktsRx := s.pktsRx + m, pktsDelivered := s.pktsDelivered + m)
  {
    hide Inv;
    hide ExactlyOnce;
    hide InMode;
    hide FramesOf;
    hide PayloadsOf;
    CountersCount(s);
    QuietReceive(s);
    WeakerMode(s, []);
    var m := |s.rx|;
    assert s.rx[..m] == s.rx;
    if m > 0 {
      var c, held := Processed(s, m), FramesOf(s.rx);
      ProcessedAgrees(s, m, Mixed);
      RefillDoesNotWait(c, held, held, NoTurns());
      ResubmittedAgrees(c, held, Mixed);
    }
  }

  lemma AppliedInWindow(s: RxState, u: RxState)
    requires WellFormed(s) && WellFormed(u) && InWindow(s) && s.toFill == u.toFill == s.cfg.frames
    requires |s.rx| <= s.cfg.frames && u.cfg == s.cfg && u.cursor == Wrap(s.cursor + |s.rx|, s.cfg.frames)
    requires u.rx == [] && u.kernel == s.kernel && u.fill == s.fill + FramesOf(s.rx)
    ensures InWindow(u)
  {
    hide FramesOf;
    hide Span;
    var m := |s.rx|;
    assert FramesOf(u.rx) == [];
    assert Cycle(s)[..m] == FramesOf(s.rx) && Cycle(s)[m..] == s.kernel + s.fill;
    assert Cycle(u) == Cycle(s)[m..] + Cycle(s)[..m];
    SpanRotated(s.cursor, m, s.cfg.frames);
  }

  lemma AppliedInOrder(s: RxState, u: RxState)
    requires WellFormed(s) && WellFormed(u) && s.toFill == u.toFill == s.cfg.frames == u.cfg.frames
    requires InOrder(s) && u.arrived == s.arrived && u.rx == [] && u.delivered == s.delivered + PayloadsOf(s.rx)
    ensures InOrder(u)
  {
    assert Pending(s) == [] && Pending(u) == [] && PayloadsOf(u.rx) == [];
  }

  /** From an aligned state in which nothing is Filled, one recv_apply and one recv for each packet
      on the ring, with no kernel step in between, deliver the same packets in the same order and
      leave the same rings and counters; only the cursor differs. */
  lemma BatchFormAgrees(s: RxState, room: nat)
    requires Agrees(s, [], RecvFifo) && s.toFill == s.cfg.frames <= s.cfg.fillRingSize
    requires AllFit(s, room)
    ensures var one := RecvApply(s, true, NoTurns());
            var many := RunAll(s, Recvs(|s.rx|, room));
            && one.Applied? && many.Applied?
            && one.s == many.s.(cursor := s.cursor)
  {
    hide Inv;
    hide ExactlyOnce;
    hide InWindow;
    hide InOrder;
    hide RecvApply;
    hide RunAll;
    hide Recvs;
    hide AllFit;
    var m := |s.rx|;
    ApplyThenMoveCursor(s);
    var u := RecvApply(s, true, NoTurns()).s.(cursor := Wrap(s.cursor + m, s.cfg.frames));
    RecvsFromRing(s, room);
    var t := RunAll(s, Recvs(m, room)).s;
    SameBoundary(t, u);
    assert t == u;
    RecvApplyKeepsCursor(s);
  }

  lemma RecvApplyKeepsCursor(s: RxState)
    requires WellFormed(s)
    ensures RecvApply(s, true, NoTurns()).s.cursor == s.cursor
  {
  }

  /** The first recv consumes the whole ring; the rest find it empty. */
  lemma RecvsFromRing(s: RxState, room: nat)
    requires Agrees(s, [], RecvFifo) && s.toFill == s.cfg.frames <= s.cfg.fillRingSize
    requires AllFit(s, room)
    ensures var r := RunAll(s, Recvs(|s.rx|, room));
            && r.Applied? && Agrees(r.s, [], RecvFifo)
            && |s.rx| <= s.cfg.frames
            && Moved(Receive(s, |s.rx|), r.s, |s.rx|)
  {
    hide Inv;
    hide ExactlyOnce;
    var m := |s.rx|;
    CountersCount(s);
    ReceiveAgrees(s, m, RecvFifo);
    var s1 := Receive(s, m);
    QuietRecvs(s1, m, room);
    if m == 0 {
      assert s1 == s;
    } else {
      var e := RecvCall(room, true, NoTurns());
      assert Receive(s1, 0) == s1;
      assert Step(s, e) == Step(s1, e);
      RunAllFirst(s, e, Recvs(m - 1, room));
      RunAllFirst(s1, e, Recvs(m - 1, room));
    }
  }

  // ---------- an undersized fill ring ----------

  /** The constructor establishes the invariant exactly when the fill ring can take all rx frames. */
  lemma InitNeedsFillRing(cfg: RxConfig)
    requires 0 < cfg.frames
    ensures Inv(Init(cfg), []) <==> cfg.frames <= cfg.fillRingSize
  {
    if cfg.frames <= cfg.fillRingSize {
      InitCycle(cfg);
    } else {
      assert |Cycle(Init(cfg))| == 0;
    }
  }

  ghost predicate Dead(s: RxState) {
    && WellFormed(s) && NoneFilled(s)
    && s.fill == [] && s.kernel == [] && s.rx == [] && s.arrived == [] && s.delivered == []
  }

  lemma {:induction false} DeadRun(s: RxState, turn: Turn)
    requires Dead(s)
    ensures Run(s, turn) == s
    decreases |turn|
  {
    if turn != [] {
      DeadRun(s, turn[1..]);
    }
  }

  /** If it cannot, no frame ever reaches the kernel and nothing is ever received, in any run. */
  lemma {:induction false} UndersizedFillRingIsDead(s: RxState, es: seq<Event>)
    requires Dead(s)
    ensures var r := RunAll(s, es); r.Applied? && Dead(r.s)
    decreases |es|
  {
    if es != [] {
      match es[0] {
        case RecvCall(room, polled, turns) =>
          assert Receive(s, 0) == s;
        case RecvApplyCall(polled, turns) =>
          assert Consume(s, 0) == s;
        case KernelTurn(turn) => DeadRun(s, turn);
      }
      UndersizedFillRingIsDead(Step(s, es[0]).s, es[1..]);
    }
  }

  lemma InitDead(cfg: RxConfig)
    requires cfg.fillRingSize < cfg.frames
    ensures Dead(Init(cfg))
  {
  }

  // ---------- so the refill loops never wait at all ----------

  predicate WithTurns(es: seq<Event>) {
    forall k :: 0 <= k < |es| ==> es[k].KernelTurn? || es[k].turns != []
  }

  lemma RecvDoesNotWait(s: RxState, room: nat, polled: bool, turns: seq<Turn>)
    requires Agrees(s, [], Mixed) && s.cfg.frames <= s.cfg.fillRingSize && turns != []
    ensures !Recv(s, room, polled, turns).Spinning?
  {
    hide Inv;
    hide ExactlyOnce;
    var s1 := Receive(s, Available(s, polled));
    ReceiveAgrees(s, Available(s, polled), Mixed);
    if s1.slots[s1.cursor].Some? {
      RefillDoesNotWait(s1, [s1.cursor], [], turns);
    }
  }

  lemma RecvApplyDoesNotWait(s: RxState, polled: bool, turns: seq<Turn>)
    requires Agrees(s, [], Mixed) && s.cfg.frames <= s.cfg.fillRingSize && turns != []
    ensures !RecvApply(s, polled, turns).Spinning?
  {
    hide Inv;
    hide ExactlyOnce;
    var k := Available(s, polled);
    if k > 0 {
      ProcessedAgrees(s, k, Mixed);
      RefillDoesNotWait(Processed(s, k), FramesOf(s.rx[..k]), FramesOf(s.rx[..k]), turns);
    }
  }

  lemma {:induction false} RunDoesNotWait(s: RxState, es: seq<Event>)
    requires Agrees(s, [], Mixed) && s.cfg.frames <= s.cfg.fillRingSize && WithTurns(es)
    ensures !RunAll(s, es).Spinning?
    decreases |es|
  {
    hide Inv;
    hide ExactlyOnce;
    hide Recv;
    hide RecvApply;
    if es != [] {
      match es[0] {
        case RecvCall(room, polled, turns) => RecvDoesNotWait(s, room, polled, turns);
        case RecvApplyCall(polled, turns) => RecvApplyDoesNotWait(s, polled, turns);
        case KernelTurn(turn) =>
      }
      assert Allows(es[0], Mixed);
      StepAgrees(s, es[0], Mixed);
      var r := Step(s, es[0]);
      if !r.Panicked? { RunDoesNotWait(r.s, es[1..]); }
    }
  }

  /** In every configuration, every run and with every kernel, a refill loop succeeds at its first
      attempt: either the fill ring can hold all rx frames, or nothing is ever received. */
  lemma RefillNeverWaits(cfg: RxConfig, es: seq<Event>)
    requires 0 < cfg.frames && WithTurns(es)
    ensures !RunAll(Init(cfg), es).Spinning?
  {
    if cfg.frames <= cfg.fillRingSize {
      InitAgrees(cfg, Mixed);
      RunDoesNotWait(Init(cfg), es);
    } else {
      InitDead(cfg);
      UndersizedFillRingIsDead(Init(cfg), es);
    }
  }
}
