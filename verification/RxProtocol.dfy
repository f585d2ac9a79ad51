/** The receive protocol over frame indices: the user's bookkeeping (cursor, filled frames,
    counters), the fill and rx rings, and the frames the kernel holds.

    As on the transmit side a call is a function of the state and of a finite schedule of kernel
    turns, one for each attempt of a refill loop. A frame is Filled exactly when its slot holds
    the payload that waits in it. */
module RxProtocol {
  import opened Sequences
  import opened Frames

  /** One kernel action. An action that is not possible in a state does nothing. */
  datatype KernelStep =
    | TakeFill                        // take the oldest frame of the fill ring
    | Deliver(i: nat, p: Payload)     // put a packet in the i-th frame held and report it on the rx ring

  type Turn = seq<KernelStep>

  datatype Arrival = Arrival(frame: nat, p: Payload)

  datatype RxConfig = RxConfig(frames: nat, fillRingSize: nat, rxRingSize: nat)

  datatype RxState = RxState(
    cfg: RxConfig,
    // user side
    slots: seq<Option<Payload>>,  // Some(p): status Filled and holding p
    cursor: nat,
    toFill: nat,                  // n_frames_to_be_filled
    pktsRx: nat,
    pktsDelivered: nat,
    // rings and kernel, oldest first
    fill: seq<nat>,
    kernel: seq<nat>,
    rx: seq<Arrival>,
    // history
    arrived: seq<Payload>,        // packets the kernel put on the rx ring
    delivered: seq<Payload>)      // packets handed to the caller

  function FramesOf(q: seq<Arrival>): (r: seq<nat>)
    ensures |r| == |q|
    ensures forall k {:trigger r[k]} {:trigger q[k]} :: 0 <= k < |q| ==> r[k] == q[k].frame
  {
    if q == [] then [] else FramesOf(q[..|q| - 1]) + [q[|q| - 1].frame]
  }

  function PayloadsOf(q: seq<Arrival>): (r: seq<Payload>)
    ensures |r| == |q|
    ensures forall k {:trigger r[k]} {:trigger q[k]} :: 0 <= k < |q| ==> r[k] == q[k].p
  {
    if q == [] then [] else PayloadsOf(q[..|q| - 1]) + [q[|q| - 1].p]
  }

  ghost predicate WellFormed(s: RxState) {
    && 0 < s.cfg.frames == |s.slots|
    && s.cursor < s.cfg.frames
    && Below(s.fill, s.cfg.frames) && Below(s.kernel, s.cfg.frames) && Below(FramesOf(s.rx), s.cfg.frames)
  }

  /** All frames are offered to the fill ring at once; whether it took them is not looked at. */
  function Init(cfg: RxConfig): (s: RxState)
    requires 0 < cfg.frames
    ensures WellFormed(s)
  {
    RxState(cfg, seq(cfg.frames, _ => None), 0, cfg.frames, 0, 0,
            if cfg.frames <= cfg.fillRingSize then Interval(0, cfg.frames) else [], [], [], [], [])
  }

  // ---------- kernel ----------

  function Kernel(s: RxState, step: KernelStep): (r: RxState)
    requires WellFormed(s)
    ensures WellFormed(r)
    ensures r == s.(fill := r.fill, kernel := r.kernel, rx := r.rx, arrived := r.arrived)
  {
    match step
    case TakeFill =>
      if s.fill == [] then s else s.(fill := s.fill[1..], kernel := s.kernel + [s.fill[0]])
    case Deliver(i, p) =>
      if i < |s.kernel| && |s.rx| < s.cfg.rxRingSize then
        s.(kernel := Without(s.kernel, i),
           rx := s.rx + [Arrival(s.kernel[i], p)],
           arrived := s.arrived + [p])
      else s
  }

  function Run(s: RxState, turn: Turn): (r: RxState)
    requires WellFormed(s)
    ensures WellFormed(r)
    ensures r == s.(fill := r.fill, kernel := r.kernel, rx := r.rx, arrived := r.arrived)
    decreases |turn|
  {
    if turn == [] then s else Run(Kernel(s, turn[0]), turn[1..])
  }

  // ---------- user ----------

  /** How many descriptors poll_and_consume returns; polled says whether poll found the socket readable. */
  function Available(s: RxState, polled: bool): (k: nat)
    ensures k <= |s.rx| && k <= s.toFill
  {
    if polled then Min(|s.rx|, s.toFill) else 0
  }

  function Consume(s: RxState, k: nat): (r: RxState)
    requires WellFormed(s) && k <= |s.rx| && k <= s.toFill
    ensures WellFormed(r)
  {
    s.(rx := s.rx[k..], toFill := s.toFill - k, pktsRx := s.pktsRx + k)
  }

  /** update_rx_frames: each descriptor's frame becomes Filled. */
  function MarkFilled(slots: seq<Option<Payload>>, batch: seq<Arrival>): (r: seq<Option<Payload>>)
    requires Below(FramesOf(batch), |slots|)
    ensures |r| == |slots|
    ensures forall i :: 0 <= i < |slots| && i !in FramesOf(batch) ==> r[i] == slots[i]
  {
    if batch == [] then slots else
      var last := |batch| - 1;
      assert FramesOf(batch) == FramesOf(batch[..last]) + [batch[last].frame];
      MarkFilled(slots, batch[..last])[batch[last].frame := Some(batch[last].p)]
  }

  function Receive(s: RxState, k: nat): (r: RxState)
    requires WellFormed(s) && k <= |s.rx| && k <= s.toFill
    ensures WellFormed(r)
  {
    Consume(s, k).(slots := MarkFilled(s.slots, s.rx[..k]))
  }

  datatype Refilled = Submitted(s: RxState) | StillFull(s: RxState)

  /** A refill loop: the kernel has a turn before each all-or-nothing attempt. */
  function Refill(s: RxState, frames: seq<nat>, turns: seq<Turn>): (r: Refilled)
    requires WellFormed(s) && Below(frames, s.cfg.frames)
    ensures WellFormed(r.s)
    ensures r.s == s.(fill := r.s.fill, kernel := r.s.kernel, rx := r.s.rx, arrived := r.s.arrived)
    decreases |turns|
  {
    if turns == [] then StillFull(s) else
      var s1 := Run(s, turns[0]);
      if |s1.fill| + |frames| <= s.cfg.fillRingSize then Submitted(s1.(fill := s1.fill + frames))
      else Refill(s1, frames, turns[1..])
  }

  datatype Outcome =
    | Packet(s: RxState, p: Payload)
    | Empty(s: RxState)
    | Applied(s: RxState, ps: seq<Payload>)     // the payloads the closure saw, in call order
    | Panicked
    | Spinning(s: RxState, held: seq<nat>)      // held: frames processed but not yet resubmitted

  /** The bookkeeping after the frame at the cursor was resubmitted. */
  function Delivered(s: RxState, p: Payload): (r: RxState)
    requires WellFormed(s)
    ensures WellFormed(r)
  {
    s.(delivered := s.delivered + [p],
       pktsDelivered := s.pktsDelivered + 1,
       slots := s.slots[s.cursor := None],
       toFill := s.toFill + 1,
       cursor := Wrap(s.cursor + 1, s.cfg.frames))
  }

  /** The second half of recv: hand over the frame at the cursor if it is Filled. */
  function TakeAtCursor(s: RxState, room: nat, turns: seq<Turn>): (r: Outcome)
    requires WellFormed(s)
    ensures !r.Panicked? ==> WellFormed(r.s) && r.s.cfg == s.cfg
  {
    match s.slots[s.cursor]
    case None => Empty(s)
    case Some(p) =>
      if |p| > room then Panicked else
        var refill := Refill(s, [s.cursor], turns);
        if refill.StillFull? then Spinning(refill.s, []) else Packet(Delivered(refill.s, p), p)
  }

  /** recv into a buffer of the given length. */
  function Recv(s: RxState, room: nat, polled: bool, turns: seq<Turn>): (r: Outcome)
    requires WellFormed(s)
    ensures !r.Panicked? ==> WellFormed(r.s) && r.s.cfg == s.cfg
  {
    TakeAtCursor(Receive(s, Available(s, polled)), room, turns)
  }

  /** The state once the closure has seen the first k packets of the ring. */
  function Processed(s: RxState, k: nat): (r: RxState)
    requires WellFormed(s) && k <= |s.rx| && k <= s.toFill
    ensures WellFormed(r)
  {
    Consume(s, k).(delivered := s.delivered + PayloadsOf(s.rx[..k]))
  }

  /** The second half of apply_batch: resubmit all processed frames together. */
  function ResubmitAll(s: RxState, held: seq<nat>, ps: seq<Payload>, turns: seq<Turn>): (r: Outcome)
    requires WellFormed(s) && Below(held, s.cfg.frames)
    ensures !r.Panicked? && WellFormed(r.s) && r.s.cfg == s.cfg
  {
    var refill := Refill(s, held, turns);
    if refill.StillFull? then Spinning(refill.s, held)
    else Applied(refill.s.(pktsDelivered := refill.s.pktsDelivered + |held|,
                           toFill := refill.s.toFill + |held|), ps)
  }

  /** recv_apply: every descriptor is processed, then all frames are resubmitted together. */
  function RecvApply(s: RxState, polled: bool, turns: seq<Turn>): (r: Outcome)
    requires WellFormed(s)
    ensures !r.Panicked? && WellFormed(r.s) && r.s.cfg == s.cfg
  {
    var k := Available(s, polled);
    if k == 0 then Applied(Consume(s, 0), [])
    else ResubmitAll(Processed(s, k), FramesOf(s.rx[..k]), PayloadsOf(s.rx[..k]), turns)
  }

  // ---------- runs ----------

  datatype Event =
    | RecvCall(room: nat, polled: bool, turns: seq<Turn>)
    | RecvApplyCall(polled: bool, turns: seq<Turn>)
    | KernelTurn(turn: Turn)

  function Step(s: RxState, e: Event): (r: Outcome)
    requires WellFormed(s)
    ensures !r.Panicked? ==> WellFormed(r.s) && r.s.cfg == s.cfg
  {
    match e
    case RecvCall(room, polled, turns) => Recv(s, room, polled, turns)
    case RecvApplyCall(polled, turns) => RecvApply(s, polled, turns)
    case KernelTurn(turn) => Applied(Run(s, turn), [])
  }

  function RunAll(s: RxState, es: seq<Event>): (r: Outcome)
    requires WellFormed(s)
    ensures !r.Panicked? ==> WellFormed(r.s) && r.s.cfg == s.cfg
    decreases |es|
  {
    if es == [] then Applied(s, []) else
      var r := Step(s, es[0]);
      if r.Panicked? || r.Spinning? then r else RunAll(r.s, es[1..])
  }

  lemma RunNothing(s: RxState)
    requires WellFormed(s)
    ensures Run(s, []) == s
  {
  }

  lemma RunFirst(s: RxState, step: KernelStep, rest: Turn)
    requires WellFormed(s)
    ensures Run(s, [step] + rest) == Run(Kernel(s, step), rest)
  {
    assert ([step] + rest)[1..] == rest;
  }

  lemma RefillLast(s: RxState, frames: seq<nat>, turns: seq<Turn>)
    requires WellFormed(s) && Below(frames, s.cfg.frames)
    ensures Refill(s, frames, turns[|turns|..]) == StillFull(s)
  {
  }

  lemma RefillFirst(s: RxState, frames: seq<nat>, turns: seq<Turn>, k: nat)
    requires WellFormed(s) && Below(frames, s.cfg.frames) && k < |turns|
    ensures Refill(s, frames, turns[k..]) == var s1 := Run(s, turns[k]);
              if |s1.fill| + |frames| <= s1.cfg.fillRingSize then Submitted(s1.(fill := s1.fill + frames))
              else Refill(s1, frames, turns[k + 1..])
  {
    assert turns[k..][1..] == turns[k + 1..];
  }

  /** The ledger of delivered packets grows by what a call hands over. */
  lemma DeliveredGrows(s: RxState, e: Event)
    requires WellFormed(s)
    ensures var r := Step(s, e);
            match r
            case Packet(s', p) => s'.delivered == s.delivered + [p]
            case Empty(s') => s'.delivered == s.delivered
            case Applied(s', ps) => s'.delivered == s.delivered + ps
            case _ => true
  {
  }

  lemma RunAllFirst(s: RxState, e: Event, rest: seq<Event>)
    requires WellFormed(s)
    ensures Step(s, e).Panicked? || Step(s, e).Spinning? ==> RunAll(s, [e] + rest) == Step(s, e)
    ensures !Step(s, e).Panicked? && !Step(s, e).Spinning? ==> RunAll(s, [e] + rest) == RunAll(Step(s, e).s, rest)
  {
    assert ([e] + rest)[1..] == rest;
  }
}
