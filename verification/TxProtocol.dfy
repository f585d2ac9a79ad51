/** The transmit protocol over frame indices: the user's bookkeeping (cursor, statuses,
    counters, current batch), the tx and completion rings, and the frames the kernel holds.

    A call is a function of the state and of a schedule. The schedule is a finite list of
    kernel turns, one for each point of a spin loop at which the kernel may run; a call
    whose schedule ends before its loop does is reported as still spinning. */
module TxProtocol {
  import opened Sequences
  import opened Frames

  /** One kernel action. An action that is not possible in a state does nothing. */
  datatype KernelStep =
    | Take               // move the oldest descriptor of the tx ring into the kernel
    | Complete(i: nat)   // transmit the i-th frame held and report it on the completion ring

  type Turn = seq<KernelStep>

  datatype TxConfig = TxConfig(frames: nat, batchSize: nat, mtu: nat, txRingSize: nat, compRingSize: nat)

  datatype TxState = TxState(
    cfg: TxConfig,
    // user side
    status: seq<FrameStatus>,
    content: seq<Payload>,      // the bytes each frame currently holds
    cursor: nat,
    batched: nat,               // cur_batch_size
    outstanding: nat,           // outstanding_tx_frames
    pktsTx: nat,
    pktsCompleted: nat,
    // rings and kernel, oldest first
    ring: seq<nat>,
    kernel: seq<nat>,
    comp: seq<nat>,
    // history
    accepted: seq<Payload>,     // payloads for which a send was not refused
    sent: seq<Payload>)         // payloads the kernel put on the wire

  ghost predicate WellFormed(s: TxState) {
    && 0 < s.cfg.frames == |s.status| == |s.content|
    && s.cursor < s.cfg.frames
    && Below(s.ring, s.cfg.frames) && Below(s.kernel, s.cfg.frames) && Below(s.comp, s.cfg.frames)
  }

  function Init(cfg: TxConfig, content: seq<Payload>): (s: TxState)
    requires 0 < cfg.frames == |content|
  {
    TxState(cfg, seq(cfg.frames, _ => Free), content, 0, 0, 0, 0, 0, [], [], [], [], [])
  }

  // ---------- kernel ----------

  function Kernel(s: TxState, step: KernelStep): (r: TxState)
    requires WellFormed(s)
    ensures WellFormed(r)
    ensures r == s.(ring := r.ring, kernel := r.kernel, comp := r.comp, sent := r.sent)
  {
    match step
    case Take =>
      if s.ring == [] then s else s.(ring := s.ring[1..], kernel := s.kernel + [s.ring[0]])
    case Complete(i) =>
      if i < |s.kernel| && |s.comp| < s.cfg.compRingSize then
        s.(kernel := Without(s.kernel, i),
           comp := s.comp + [s.kernel[i]],
           sent := s.sent + [s.content[s.kernel[i]]])
      else s
  }

  function Run(s: TxState, turn: Turn): (r: TxState)
    requires WellFormed(s)
    ensures WellFormed(r)
    ensures r == s.(ring := r.ring, kernel := r.kernel, comp := r.comp, sent := r.sent)
    decreases |turn|
  {
    if turn == [] then s else Run(Kernel(s, turn[0]), turn[1..])
  }

  // ---------- user ----------

  /** complete_frames: consume completions and mark their frames Free. */
  function Harvest(s: TxState): (r: TxState)
    requires WellFormed(s)
    ensures WellFormed(r)
  {
    var k := Min(|s.comp|, s.outstanding);
    s.(comp := s.comp[k..],
       outstanding := s.outstanding - k,
       pktsCompleted := s.pktsCompleted + k,
       status := SetAll(s.status, s.comp[..k], Free))
  }

  /** Write a payload to the frame at the cursor and move on. */
  function Store(s: TxState, p: Payload): (r: TxState)
    requires WellFormed(s)
    ensures WellFormed(r)
  {
    s.(content := s.content[s.cursor := p],
       cursor := Wrap(s.cursor + 1, s.cfg.frames),
       batched := s.batched + 1,
       accepted := s.accepted + [p])
  }

  /** The subtraction that finds the start of the batch does not underflow. */
  predicate Contiguous(s: TxState) {
    s.batched <= if s.cursor == 0 then s.cfg.frames else s.cursor
  }

  /** The slice of tx_frames that the batch occupies. */
  function Slice(s: TxState): (q: seq<nat>)
    requires WellFormed(s) && Contiguous(s)
    ensures |q| == s.batched && Below(q, s.cfg.frames)
  {
    var end := if s.cursor == 0 then s.cfg.frames else s.cursor;
    Interval(end - s.batched, end)
  }

  function Mark(s: TxState): (r: TxState)
    requires WellFormed(s) && Contiguous(s)
    ensures WellFormed(r)
  {
    s.(status := SetAll(s.status, Slice(s), OnTxQueue))
  }

  predicate HasRoom(s: TxState) {
    |s.ring| + s.batched <= s.cfg.txRingSize
  }

  function Enqueue(s: TxState): (r: TxState)
    requires WellFormed(s) && Contiguous(s)
    ensures WellFormed(r)
  {
    s.(ring := s.ring + Slice(s),
       pktsTx := s.pktsTx + s.batched,
       outstanding := s.outstanding + s.batched,
       batched := 0)
  }

  datatype Outcome =
    | Ok(s: TxState, rest: seq<Turn>)
    | NoFreeTxFrames(s: TxState)
    | Panicked
    | Spinning(s: TxState)

  /** Submission moves frames; it changes neither their bytes nor the cursor. */
  predicate SameFrames(s: TxState, r: TxState) {
    s.cfg == r.cfg && s.content == r.content && s.cursor == r.cursor && s.accepted == r.accepted
  }

  /** The submission loop: the kernel has a turn before each attempt. */
  function Submit(s: TxState, turns: seq<Turn>): (r: Outcome)
    requires WellFormed(s) && Contiguous(s)
    ensures r.Ok? || r.Spinning?
    ensures WellFormed(r.s) && SameFrames(s, r.s)
    ensures r.Ok? ==> |r.rest| < |turns| && r.s.batched == 0
    decreases |turns|
  {
    if turns == [] then Spinning(s) else
      var s1 := Run(s, turns[0]);
      if HasRoom(s1) then Ok(Enqueue(s1), turns[1..]) else Submit(s1, turns[1..])
  }

  function PutBatch(s: TxState, turns: seq<Turn>): (r: Outcome)
    requires WellFormed(s)
    ensures !r.NoFreeTxFrames?
    ensures !r.Panicked? ==> WellFormed(r.s) && SameFrames(s, r.s)
    ensures r.Ok? ==> |r.rest| <= |turns| && r.s.batched == 0
  {
    if s.batched == 0 then Ok(s, turns)
    else if !Contiguous(s) then Panicked
    else Submit(Mark(s), turns)
  }

  /** send (checked) and send_apply (not checked); p is what the frame holds afterwards. */
  function Send(s: TxState, p: Payload, checked: bool, turns: seq<Turn>): (r: Outcome)
    requires WellFormed(s)
    ensures !r.Panicked? ==> WellFormed(r.s) && r.s.cfg == s.cfg
  {
    var s1 := Harvest(s);
    if s1.status[s1.cursor] != Free then NoFreeTxFrames(s1)
    else if checked && |p| > s1.cfg.mtu then Panicked
    else
      var s2 := Store(s1, p);
      if s2.batched == s2.cfg.batchSize then PutBatch(s2, turns) else Ok(s2, turns)
  }

  /** Where a send that panics stops: before the write if that is what panics, else after it. */
  function StoppedAt(s: TxState, p: Payload, checked: bool): TxState
    requires WellFormed(s)
  {
    var s1 := Harvest(s);
    if checked && |p| > s1.cfg.mtu then s1 else Store(s1, p)
  }

  function Drain(s: TxState, turns: seq<Turn>): (r: Outcome)
    requires WellFormed(s)
    ensures !r.NoFreeTxFrames?
    ensures !r.Panicked? ==> WellFormed(r.s) && SameFrames(s, r.s)
    ensures r.Ok? ==> r.s.batched == 0 == r.s.outstanding
    decreases |turns|
  {
    var put := PutBatch(Harvest(s), turns);
    if !put.Ok? || put.s.outstanding == 0 then put
    else if put.rest == [] then Spinning(put.s)
    else Drain(Run(put.s, put.rest[0]), put.rest[1..])
  }

  // ---------- runs ----------

  datatype Event =
    | SendCall(p: Payload, turns: seq<Turn>)
    | SendApplyCall(p: Payload, turns: seq<Turn>)
    | DrainCall(turns: seq<Turn>)
    | KernelTurn(turn: Turn)

  function Step(s: TxState, e: Event): (r: Outcome)
    requires WellFormed(s)
    ensures !r.Panicked? ==> WellFormed(r.s) && r.s.cfg == s.cfg
  {
    match e
    case SendCall(p, turns) => Send(s, p, true, turns)
    case SendApplyCall(p, turns) => Send(s, p, false, turns)
    case DrainCall(turns) => Drain(s, turns)
    case KernelTurn(turn) => Ok(Run(s, turn), [])
  }

  /** A run stops where it panics or is still spinning; a refused send does not stop it. */
  function RunAll(s: TxState, es: seq<Event>): (r: Outcome)
    requires WellFormed(s)
    ensures !r.Panicked? ==> WellFormed(r.s) && r.s.cfg == s.cfg
    decreases |es|
  {
    if es == [] then Ok(s, []) else
      var r := Step(s, es[0]);
      if r.Panicked? || r.Spinning? then r else RunAll(r.s, es[1..])
  }

  lemma RunFirst(s: TxState, step: KernelStep, rest: Turn)
    requires WellFormed(s)
    ensures Run(s, [step] + rest) == Run(Kernel(s, step), rest)
  {
    assert ([step] + rest)[1..] == rest;
  }

  lemma SubmitLast(s: TxState, turns: seq<Turn>)
    requires WellFormed(s) && Contiguous(s)
    ensures Submit(s, turns[|turns|..]) == Spinning(s)
  {
  }

  lemma SubmitFirst(s: TxState, turns: seq<Turn>, k: nat)
    requires WellFormed(s) && Contiguous(s) && k < |turns|
    ensures Submit(s, turns[k..]) == var s1 := Run(s, turns[k]);
              if HasRoom(s1) then Ok(Enqueue(s1), turns[k + 1..]) else Submit(s1, turns[k + 1..])
  {
    assert turns[k..][1..] == turns[k + 1..];
  }

  lemma NoBatchNoPanic(s: TxState, turns: seq<Turn>)
    requires WellFormed(s) && PutBatch(Harvest(s), turns).Panicked?
    ensures s.batched != 0
  {
  }

  lemma DrainFirst(s: TxState, turns: seq<Turn>)
    requires WellFormed(s)
    ensures Drain(s, turns) == var put := PutBatch(Harvest(s), turns);
              if !put.Ok? || put.s.outstanding == 0 then put
              else if put.rest == [] then Spinning(put.s)
              else Drain(Run(put.s, put.rest[0]), put.rest[1..])
  {
  }

  lemma RunAllFirst(s: TxState, e: Event, rest: seq<Event>)
    requires WellFormed(s)
    ensures Step(s, e).Panicked? || Step(s, e).Spinning? ==> RunAll(s, [e] + rest) == Step(s, e)
    ensures Step(s, e).Ok? || Step(s, e).NoFreeTxFrames? ==> RunAll(s, [e] + rest) == RunAll(Step(s, e).s, rest)
  {
    assert ([e] + rest)[1..] == rest;
  }

  /** A run may be cut anywhere. */
  lemma {:induction false} RunAllSum(s: TxState, a: seq<Event>, b: seq<Event>)
    requires WellFormed(s)
    ensures RunAll(s, a).Panicked? || RunAll(s, a).Spinning? ==> RunAll(s, a + b) == RunAll(s, a)
    ensures RunAll(s, a).Ok? || RunAll(s, a).NoFreeTxFrames? ==> RunAll(s, a + b) == RunAll(RunAll(s, a).s, b)
    decreases |a|
  {
    if a == [] {
      assert a + b == b;
    } else {
      assert a + b == [a[0]] + (a[1..] + b);
      assert a == [a[0]] + a[1..];
      RunAllFirst(s, a[0], a[1..]);
      RunAllFirst(s, a[0], a[1..] + b);
      if Step(s, a[0]).Ok? || Step(s, a[0]).NoFreeTxFrames? {
        RunAllSum(Step(s, a[0]).s, a[1..], b);
      }
    }
  }
}
