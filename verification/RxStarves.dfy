/** Every other state: if the kernel's frames are not the ones before the cursor, in order, then recv misses
    a packet. Either a packet already waits past an empty frame, or the next arrivals make that so. */
module RxStarves {
  import opened Sequences
  import opened Frames
  import opened RxProtocol
  import opened RxInvariant
  import opened RxTheorems
  import opened RxWindow

  // ---------- a gap ----------

  /** The frame i places after the cursor. */
  function Seen(s: RxState, i: nat): Option<Payload>
    requires WellFormed(s) && i < s.cfg.frames
  {
    s.slots[Wrap(s.cursor + i, s.cfg.frames)]
  }

  /** A packet waits past an empty frame, seen from the cursor: recv stops at the empty one. */
  ghost predicate Gap(s: RxState, i: nat, j: nat)
    requires WellFormed(s)
  {
    i < j < s.cfg.frames && Seen(s, i).None? && Seen(s, j).Some?
  }

  function Takes(k: nat): Turn { if k == 0 then [] else [TakeFill] + Takes(k - 1) }

  lemma {:induction false} TakesEmpty(s: RxState, k: nat)
    requires WellFormed(s) && |s.fill| <= k
    ensures Run(s, Takes(k)) == s.(fill := [], kernel := s.kernel + s.fill)
    decreases k
  {
    hide Run;
    if k > 0 {
      RunFirst(s, TakeFill, Takes(k - 1));
      TakesEmpty(Kernel(s, TakeFill), k - 1);
      if s.fill != [] {
        assert s.kernel + s.fill == s.kernel + [s.fill[0]] + s.fill[1..];
      }
    } else {
      RunNothing(s);
      assert s.kernel + s.fill == s.kernel;
    }
  }

  lemma {:induction false} TakesAreAllowed(k: nat)
    ensures AllowsTurn(Takes(k), RecvFifo)
  {
    if k > 0 { TakesAreAllowed(k - 1); }
  }

  /** A recv during whose refill the kernel only takes. */
  lemma OneRecv(s: RxState, p: Payload)
    requires WellFormed(s) && s.slots[s.cursor] == Some(p) && 1 <= s.cfg.fillRingSize
    ensures var r := TakeAtCursor(s, |p|, [Takes(|s.fill|)]);
            && r.Packet? && r.s.cfg == s.cfg && r.s.rx == s.rx
            && r.s.slots == s.slots[s.cursor := None] && r.s.cursor == Wrap(s.cursor + 1, s.cfg.frames)
            && r.s.kernel + r.s.fill == s.kernel + s.fill + [s.cursor]
            && r.s.delivered == s.delivered + [p] && r.s.arrived == s.arrived && r.s.toFill == s.toFill + 1
  {
    TakesEmpty(s, |s.fill|);
    var turns := [Takes(|s.fill|)];
    assert turns[0] == Takes(|s.fill|);
  }

  ghost predicate StarvesAfter(s: RxState, es: seq<Event>)
    requires WellFormed(s)
  {
    && AllowsAll(es, RecvFifo) && !RunAll(s, es).Panicked? && !RunAll(s, es).Spinning?
    && var r := Recv(RunAll(s, es).s, 0, true, []); r.Empty? && !NoneFilled(r.s)
  }

  lemma AfterOneEvent(s: RxState, e: Event, es: seq<Event>)
    requires WellFormed(s) && Allows(e, RecvFifo) && !Step(s, e).Panicked? && !Step(s, e).Spinning?
    requires StarvesAfter(Step(s, e).s, es)
    ensures StarvesAfter(s, [e] + es)
  {
    hide Step;
    hide Recv;
    hide NoneFilled;
    RunAllFirst(s, e, es);
  }

  lemma GapHere(s: RxState, i: nat, j: nat)
    requires WellFormed(s) && Gap(Polled(s), i, j) && Polled(s).slots[Polled(s).cursor] == None
    ensures StarvesAfter(s, [])
  {
    assert Recv(s, 0, true, []) == Empty(Polled(s));
  }

  lemma GapComesNearer(s: RxState, t: RxState, i: nat, j: nat)
    requires WellFormed(s) && WellFormed(t) && Gap(s, i, j) && s.slots[s.cursor].Some?
    requires t.cfg == s.cfg && t.slots == s.slots[s.cursor := None] && t.cursor == Wrap(s.cursor + 1, s.cfg.frames)
    ensures 0 < i && Gap(t, i - 1, j - 1)
  {
    var n := s.cfg.frames;
    assert Wrap(t.cursor + (i - 1), n) == Wrap(s.cursor + i, n) != s.cursor;
    assert Wrap(t.cursor + (j - 1), n) == Wrap(s.cursor + j, n) != s.cursor;
  }

  /** The packets in front of the gap are handed over, and then recv stops. */
  lemma {:induction false} GapStarves(s: RxState, i: nat, j: nat) returns (es: seq<Event>)
    requires WellFormed(s) && 1 <= s.cfg.fillRingSize && Polled(s).rx == [] && Gap(Polled(s), i, j)
    ensures StarvesAfter(s, es)
    decreases i
  {
    hide Receive;
    hide Gap;
    hide StarvesAfter;
    hide TakeAtCursor;
    hide NoneFilled;
    var s1 := Polled(s);
    match s1.slots[s1.cursor] {
      case None =>
        es := [];
        GapHere(s, i, j);
      case Some(p) =>
        OneRecv(s1, p);
        TakesAreAllowed(|s1.fill|);
        var e := RecvCall(|p|, true, [Takes(|s1.fill|)]);
        var t := Step(s, e).s;
        NothingToPoll(t);
        GapComesNearer(s1, t, i, j);
        var rest := GapStarves(t, i - 1, j - 1);
        AfterOneEvent(s, e, rest);
        es := [e] + rest;
    }
  }

  // ---------- no gap, but the wrong order ----------

  ghost predicate NoGap(s: RxState)
    requires WellFormed(s)
  {
    forall i: nat, j: nat :: !Gap(s, i, j)
  }

  lemma {:induction false} FirstNone(s: RxState, i: nat) returns (g: nat)
    requires WellFormed(s) && i <= s.cfg.frames
    requires forall k: nat :: k < i ==> Seen(s, k).Some?
    ensures g <= s.cfg.frames && (g < s.cfg.frames ==> Seen(s, g).None?)
    ensures forall k: nat :: k < g ==> Seen(s, k).Some?
    decreases s.cfg.frames - i
  {
    hide Seen;
    g := i;
    if i < s.cfg.frames && Seen(s, i).Some? {
      g := FirstNone(s, i + 1);
    }
  }

  /** Which place of the cycle, seen from the cursor, a frame is. */
  function Place(x: nat, c: nat, n: nat): (i: nat)
    requires x < n && c < n
    ensures i < n && Wrap(c + i, n) == x
  {
    if c <= x then x - c else x + n - c
  }

  /** Without a gap the frames with the kernel are the last places, seen from the cursor. */
  lemma NoGapMeans(s: RxState)
    requires Inv(s, []) && s.rx == [] && NoGap(s)
    ensures |s.kernel + s.fill| <= s.cfg.frames
    ensures forall i: nat :: i < s.cfg.frames ==> (Seen(s, i).None? <==> s.cfg.frames - |s.kernel + s.fill| <= i)
  {
    hide Seen;
    hide After;
    hide Elements;
    var n, c, q := s.cfg.frames, s.cursor, s.kernel + s.fill;
    var g := FirstNone(s, 0);
    forall i: nat | g <= i < n ensures Seen(s, i).None? {
      assert !Gap(s, g, i);
    }
    LastPlaces(s, g);
    DistinctQueue(s);
    DistinctCount(q);
    DistinctCount(After(c, g, n - g, n));
  }

  lemma DistinctQueue(s: RxState)
    requires Inv(s, []) && s.rx == []
    ensures Distinct(s.kernel + s.fill) && Below(s.kernel + s.fill, s.cfg.frames)
    ensures forall i :: 0 <= i < s.cfg.frames ==> (s.slots[i].None? <==> i in s.kernel + s.fill)
  {
    assert Cycle(s) + [] == s.kernel + s.fill;
  }

  lemma LastPlaces(s: RxState, g: nat)
    requires WellFormed(s) && Inv(s, []) && s.rx == [] && g <= s.cfg.frames
    requires forall i: nat :: i < s.cfg.frames ==> (Seen(s, i).None? <==> g <= i)
    ensures Elements(s.kernel + s.fill) == Elements(After(s.cursor, g, s.cfg.frames - g, s.cfg.frames))
  {
    hide Inv;
    hide Elements;
    var n, c, q := s.cfg.frames, s.cursor, s.kernel + s.fill;
    var last := After(c, g, n - g, n);
    DistinctQueue(s);
    forall x | x in q ensures x in last {
      QueuedIsLast(s, g, x);
    }
    forall x | x in last ensures x in q {
      var k :| 0 <= k < |last| && last[k] == x;
      assert Seen(s, g + k).None?;
    }
  }

  lemma QueuedIsLast(s: RxState, g: nat, x: nat)
    requires WellFormed(s) && g <= s.cfg.frames && x < s.cfg.frames && s.slots[x].None?
    requires forall i: nat :: i < s.cfg.frames ==> (Seen(s, i).None? <==> g <= i)
    ensures x in After(s.cursor, g, s.cfg.frames - g, s.cfg.frames)
  {
    var i := Place(x, s.cursor, s.cfg.frames);
    assert Seen(s, i).None?;
    assert After(s.cursor, g, s.cfg.frames - g, s.cfg.frames)[i - g] == x;
  }

  /** One packet arrives in the frame that comes next. */
  lemma OneArrival(s: RxState, p: Payload) returns (turn: Turn)
    requires WellFormed(s) && s.rx == [] && s.kernel + s.fill != [] && 1 <= s.cfg.rxRingSize
    ensures AllowsTurn(turn, RecvFifo)
    ensures var t := Run(s, turn);
            && t == s.(kernel := t.kernel, fill := t.fill, rx := [Arrival((s.kernel + s.fill)[0], p)],
                       arrived := s.arrived + [p])
            && t.kernel + t.fill == (s.kernel + s.fill)[1..]
  {
    hide Run;
    hide Kernel;
    var take, deliver := TakeFill, Deliver(0, p);
    turn := [take] + ([deliver] + []);
    var s1 := Kernel(s, take);
    RunFirst(s, take, [deliver] + []);
    RunFirst(s1, deliver, []);
    RunNothing(Kernel(s1, deliver));
    TakeKeepsQueue(s);
    DeliverShortensQueue(s1, p);
  }

  lemma DeliverShortensQueue(s: RxState, p: Payload)
    requires WellFormed(s) && s.rx == [] && s.kernel != [] && 1 <= s.cfg.rxRingSize
    ensures var t := Kernel(s, Deliver(0, p));
            && t == s.(kernel := t.kernel, rx := [Arrival((s.kernel + s.fill)[0], p)], arrived := s.arrived + [p])
            && t.kernel + t.fill == (s.kernel + s.fill)[1..]
  {
    assert Without(s.kernel, 0) == s.kernel[1..];
    assert s.rx + [Arrival(s.kernel[0], p)] == [Arrival(s.kernel[0], p)];
  }

  lemma TakeKeepsQueue(s: RxState)
    requires WellFormed(s) && s.kernel + s.fill != []
    ensures var t := Kernel(s, TakeFill);
            && t == s.(kernel := t.kernel, fill := t.fill)
            && t.kernel != [] && t.kernel + t.fill == s.kernel + s.fill
  {
    if s.fill != [] {
      assert s.fill == [s.fill[0]] + s.fill[1..];
    }
  }

  /** The kernel's frames are in the right order up to the j-th, which is not the one that should be next. */
  ghost predicate Misplaced(s: RxState, j: nat)
    requires WellFormed(s)
  {
    var n, q := s.cfg.frames, s.kernel + s.fill;
    && j < |q| <= n
    && (forall i: nat :: i < j ==> q[i] == Wrap(s.cursor + (n - |q| + i), n))
    && q[j] != Wrap(s.cursor + (n - |q| + j), n)
  }

  lemma InPlaceIsReturning(s: RxState)
    requires WellFormed(s) && |s.kernel + s.fill| <= s.cfg.frames
    requires var n, q := s.cfg.frames, s.kernel + s.fill;
             forall k: nat :: k < |q| ==> q[k] == Wrap(s.cursor + (n - |q| + k), n)
    ensures Returning(s)
  {
    var n, c, q := s.cfg.frames, s.cursor, s.kernel + s.fill;
    assert q == Before(c, |q|, n);
  }

  lemma {:induction false} FirstMisplaced(s: RxState, i: nat) returns (j: nat)
    requires WellFormed(s) && |s.kernel + s.fill| <= s.cfg.frames && !Returning(s) && i <= |s.kernel + s.fill|
    requires var n, q := s.cfg.frames, s.kernel + s.fill;
             forall k: nat :: k < i ==> q[k] == Wrap(s.cursor + (n - |q| + k), n)
    ensures Misplaced(s, j)
    decreases |s.kernel + s.fill| - i
  {
    var n, c, q := s.cfg.frames, s.cursor, s.kernel + s.fill;
    j := i;
    if i == |q| {
      InPlaceIsReturning(s);
      assert false;
    } else if q[i] == Wrap(c + (n - |q| + i), n) {
      j := FirstMisplaced(s, i + 1);
    }
  }

  /** If the next frame is the wrong one, the packet that arrives in it is past a gap. */
  lemma ArrivalPastGap(s: RxState, t: RxState) returns (i: nat, j: nat)
    requires WellFormed(s) && Inv(s, []) && s.rx == [] && NoGap(s) && Misplaced(s, 0)
    requires WellFormed(t) && t.rx == [Arrival((s.kernel + s.fill)[0], [])] && t.toFill > 0
    requires t.cfg == s.cfg && t.slots == s.slots && t.cursor == s.cursor
    ensures Polled(t).rx == [] && Gap(Polled(t), i, j)
  {
    hide Inv;
    hide NoGap;
    hide Polled;
    NoGapMeans(s);
    DistinctQueue(s);
    OneFilled(t, (s.kernel + s.fill)[0]);
    var n, c, q := s.cfg.frames, s.cursor, s.kernel + s.fill;
    i, j := n - |q|, Place(q[0], c, n);
    assert q[0] in q;
    assert Seen(s, j).None? && Seen(s, i).None?;
    assert Seen(Polled(t), i) == Seen(s, i);
  }

  lemma OneFilled(t: RxState, f: nat)
    requires WellFormed(t) && t.rx == [Arrival(f, [])] && t.toFill > 0
    ensures f < t.cfg.frames && Polled(t).rx == [] && Polled(t).cursor == t.cursor
    ensures Polled(t).slots == t.slots[f := Some([])]
  {
    assert t.rx[..1] == t.rx && FramesOf(t.rx) == [f] && FramesOf(t.rx)[0] == f;
    assert t.rx[..0] == [];
  }

  lemma MisplacedComesNearer(s: RxState, t: RxState, j: nat)
    requires WellFormed(s) && WellFormed(t) && Misplaced(s, j) && 0 < j && t.cfg == s.cfg
    requires t.cursor == Wrap(s.cursor + 1, s.cfg.frames)
    requires t.kernel + t.fill == (s.kernel + s.fill)[1..] + [s.cursor]
    ensures Misplaced(t, j - 1)
  {
    var n, c, q, r := s.cfg.frames, s.cursor, s.kernel + s.fill, t.kernel + t.fill;
    assert |r| == |q|;
    forall i: nat | i < j
      ensures Wrap(t.cursor + (n - |q| + i), n) == Wrap(c + (n - |q| + (i + 1)), n) && r[i] == q[i + 1]
    {
    }
  }

  /** One arrival and one recv bring the misplaced frame one place nearer. */
  lemma ArrivalThenRecv(s: RxState, j: nat) returns (es: seq<Event>, t: RxState)
    requires Agrees(s, [], Mixed) && s.rx == [] && NoGap(s) && Misplaced(s, j) && 0 < j
    requires 1 <= s.cfg.rxRingSize && 1 <= s.cfg.fillRingSize
    ensures AllowsAll(es, RecvFifo) && RunAll(s, es) == Applied(t, [])
    ensures Agrees(t, [], Mixed) && t.rx == [] && t.cfg == s.cfg && Misplaced(t, j - 1)
  {
    hide Inv;
    hide ExactlyOnce;
    hide InMode;
    hide Misplaced;
    hide Run;
    hide RunAll;
    hide TakeAtCursor;
    hide NoGap;
    MisplacedHas(s, j);
    QueueIsOwed(s);
    var turn := OneArrival(s, []);
    var s1 := Run(s, turn);
    RunAgrees(s, turn, [], Mixed);
    var p := CursorFills(s, s1, j);
    var s2 := Polled(s1);
    PollsAll(s1);
    OneRecv(s2, p);
    TakesAreAllowed(|s2.fill|);
    var e := RecvCall(|p|, true, [Takes(|s2.fill|)]);
    assert Allows(e, RecvFifo) && Allows(e, Mixed);
    StepAgrees(s1, e, Mixed);
    t := Step(s1, e).s;
    MisplacedComesNearer(s, t, j);
    es := [KernelTurn(turn)] + ([e] + []);
    RunAllFirst(s, KernelTurn(turn), [e] + []);
    RunAllFirst(s1, e, []);
    RunAllNothing(t);
  }

  lemma RunAllNothing(s: RxState)
    requires WellFormed(s)
    ensures RunAll(s, []) == Applied(s, [])
  {
  }

  lemma MisplacedHas(s: RxState, j: nat)
    requires WellFormed(s) && Misplaced(s, j)
    ensures s.kernel + s.fill != []
  {
  }

  /** After an arrival in the right frame the frame at the cursor is Filled. */
  lemma CursorFills(s: RxState, t: RxState, j: nat) returns (p: Payload)
    requires WellFormed(s) && Inv(s, []) && s.rx == [] && NoGap(s) && Misplaced(s, j) && 0 < j
    requires WellFormed(t) && t.rx == [Arrival((s.kernel + s.fill)[0], [])] && t.toFill > 0
    requires t.cfg == s.cfg && t.slots == s.slots && t.cursor == s.cursor
    ensures Polled(t).slots[t.cursor] == Some(p)
  {
    hide Inv;
    hide NoGap;
    hide Polled;
    NoGapMeans(s);
    var n, c, q := s.cfg.frames, s.cursor, s.kernel + s.fill;
    OneFilled(t, q[0]);
    assert Seen(s, 0) == s.slots[c];
    assert q[0] == Wrap(c + (n - |q| + 0), n);
    p := Polled(t).slots[c].value;
  }

  lemma {:induction false} MisplacedStarves(s: RxState, j: nat) returns (es: seq<Event>)
    requires Agrees(s, [], Mixed) && s.rx == [] && Misplaced(s, j)
    requires 1 <= s.cfg.rxRingSize && 1 <= s.cfg.fillRingSize
    ensures StarvesAfter(s, es)
    decreases j
  {
    hide Inv;
    hide ExactlyOnce;
    hide InMode;
    hide Misplaced;
    hide Gap;
    hide StarvesAfter;
    hide Run;
    hide RunAll;
    if i: nat, k: nat :| Gap(s, i, k) {
      NothingToPoll(s);
      es := GapStarves(s, i, k);
    } else if j > 0 {
      var es1, t := ArrivalThenRecv(s, j);
      var es2 := MisplacedStarves(t, j - 1);
      AfterEvents(s, es1, t, es2);
      es := es1 + es2;
    } else {
      MisplacedHas(s, 0);
      var turn := OneArrival(s, []);
      var t := Run(s, turn);
      QueueIsOwed(s);
      var i, k := ArrivalPastGap(s, t);
      es := GapStarves(t, i, k);
      AfterOneEvent(s, KernelTurn(turn), es);
      es := [KernelTurn(turn)] + es;
    }
  }

  lemma QueueIsOwed(s: RxState)
    requires Inv(s, []) && s.kernel + s.fill != []
    ensures s.toFill > 0
  {
    assert |s.kernel + s.fill| > 0;
  }

  lemma {:induction false} AfterEvents(s: RxState, a: seq<Event>, t: RxState, b: seq<Event>)
    requires WellFormed(s) && WellFormed(t) && AllowsAll(a, RecvFifo) && RunAll(s, a) == Applied(t, [])
    requires StarvesAfter(t, b)
    ensures StarvesAfter(s, a + b)
    decreases |a|
  {
    hide Step;
    hide StarvesAfter;
    if a == [] {
      assert a + b == b;
    } else {
      assert a + b == [a[0]] + (a[1..] + b);
      AfterEvents(Step(s, a[0]).s, a[1..], t, b);
      AfterOneEvent(s, a[0], a[1..] + b);
    }
  }

  /** If the kernel's frames are not the ones before the cursor, in order, recv misses a packet. */
  lemma Starved(s: RxState) returns (es: seq<Event>)
    requires Agrees(s, [], Mixed) && !Returning(s) && 1 <= s.cfg.rxRingSize && 1 <= s.cfg.fillRingSize
    ensures StarvesAfter(s, es)
  {
    hide Inv;
    hide ExactlyOnce;
    hide InMode;
    hide Gap;
    hide StarvesAfter;
    hide Misplaced;
    hide Receive;
    hide Returning;
    ReturningIsWindow(s);
    PollsAll(s);
    if i: nat, k: nat :| Gap(Polled(s), i, k) {
      es := GapStarves(s, i, k);
    } else if s.rx == [] {
      NothingToPoll(s);
      var j := FirstMisplaced(s, 0);
      es := MisplacedStarves(s, j);
    } else {
      var e, t := RecvAfterArrivals(s);
      var j := FirstMisplaced(t, 0);
      es := MisplacedStarves(t, j);
      AfterOneEvent(s, e, es);
      es := [e] + es;
    }
  }

  /** With packets on the ring and no gap once they are read, recv hands one over. */
  lemma RecvAfterArrivals(s: RxState) returns (e: Event, t: RxState)
    requires Agrees(s, [], Mixed) && !Returning(s) && s.rx != [] && NoGap(Polled(s)) && 1 <= s.cfg.fillRingSize
    ensures Allows(e, RecvFifo) && Step(s, e).Packet? && t == Step(s, e).s
    ensures Agrees(t, [], Mixed) && t.rx == [] && t.cfg == s.cfg && !Returning(t)
    ensures |t.kernel + t.fill| <= t.cfg.frames
  {
    hide Inv;
    hide ExactlyOnce;
    hide InMode;
    hide Returning;
    hide NoGap;
    hide TakeAtCursor;
    hide MarkFilled;
    var s1 := Polled(s);
    PollsAll(s);
    ReadAgrees(s);
    var p := SomethingAtCursor(s);
    OneRecv(s1, p);
    TakesAreAllowed(|s1.fill|);
    e := RecvCall(|p|, true, [Takes(|s1.fill|)]);
    assert Allows(e, Mixed);
    StepAgrees(s, e, Mixed);
    t := Step(s, e).s;
    ReturningIsWindow(t);
    NotReturningStays(s, t);
  }

  lemma ReadAgrees(s: RxState)
    requires Agrees(s, [], Mixed)
    ensures Agrees(Polled(s), [], Mixed)
  {
    hide Inv;
    hide ExactlyOnce;
    hide InMode;
    hide Receive;
    ReceiveAgrees(s, Available(s, true), Mixed);
  }

  lemma SomethingAtCursor(s: RxState) returns (p: Payload)
    requires Agrees(s, [], Mixed) && s.rx != [] && NoGap(Polled(s))
    ensures Polled(s).slots[s.cursor] == Some(p)
  {
    hide Inv;
    hide ExactlyOnce;
    hide InMode;
    hide NoGap;
    hide Polled;
    ReadAgrees(s);
    CountersCount(s);
    PollsAll(s);
    var s1 := Polled(s);
    NoGapMeans(s1);
    ReturningIsWindow(s);
    assert Seen(s1, 0) == s1.slots[s.cursor];
    p := s1.slots[s.cursor].value;
  }

  lemma SameWithoutLast<T>(a: seq<T>, b: seq<T>, x: T)
    ensures a + [x] == b + [x] ==> a == b
  {
    if a + [x] == b + [x] {
      assert a == (a + [x])[..|a|] && b == (b + [x])[..|b|];
    }
  }

  lemma NotReturningStays(s: RxState, t: RxState)
    requires WellFormed(s) && WellFormed(t) && !Returning(s) && t.cfg == s.cfg
    requires t.cursor == Wrap(s.cursor + 1, s.cfg.frames) && t.kernel + t.fill == s.kernel + s.fill + [s.cursor]
    requires |t.kernel + t.fill| <= t.cfg.frames
    ensures !Returning(t)
  {
    hide Before;
    var n, c, q := s.cfg.frames, s.cursor, s.kernel + s.fill;
    BeforeNext(c, |q|, n);
    SameWithoutLast(q, Before(c, |q|, n), c);
  }

  lemma StarvesMeans(s: RxState, es: seq<Event>)
    requires WellFormed(s) && StarvesAfter(s, es)
    ensures !NeverStarves(s)
  {
    hide Recv;
    hide RunAll;
    hide NoneFilled;
    assert AllowsTurns([], RecvFifo);
  }

  /** After any mix of recv and recv_apply, whatever the kernel did so far and whatever is on the rx
      ring: recv with an in-order kernel never leaves a packet behind exactly when the frames the kernel
      has yet to fill are the ones just before the cursor, in order. */
  lemma RecvMissesNothing(s: RxState)
    requires Agrees(s, [], Mixed) && 1 <= s.cfg.rxRingSize && 1 <= s.cfg.fillRingSize
    ensures NeverStarves(s) <==> Returning(s)
  {
    if Returning(s) {
      ReturningNeverStarves(s);
    } else {
      var es := Starved(s);
      StarvesMeans(s, es);
    }
  }
}
