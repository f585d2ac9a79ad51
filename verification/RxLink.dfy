/** How the concrete receive state (frame records, bytes, addresses and descriptors on the rings)
    stands for a state of the protocol over frame indices. Unlike on the transmit side the address
    of a frame moves: the kernel reports where in the chunk the packet starts and the code keeps
    that address. */
module RxLink {
  import opened Sequences
  import opened PowerOfTwo
  import opened Frames
  import opened Umem
  import opened RxReady
  import R = RxProtocol
  import RI = RxInvariant

  datatype RxEnv = RxEnv(size: nat, offset: nat, fillRingSize: nat, rxRingSize: nat)

  /** Where the chunk of rx frame i starts. */
  function Start(i: nat, env: RxEnv): nat { env.offset + Base(i, env.size) }

  /** The rx frame an address belongs to. */
  function Rel(a: nat, env: RxEnv): nat
    requires env.size > 0
  {
    if a < env.offset then 0 else Chunk(a - env.offset, env.size)
  }

  /** The bytes lie in chunk i of the rx area, which lies in memory. */
  ghost predicate Inside(a: nat, len: nat, i: nat, env: RxEnv, memLen: nat) {
    && Start(i, env) <= a < Start(i, env) + env.size
    && a + len <= Start(i, env) + env.size <= memLen
  }

  lemma InsideRel(a: nat, len: nat, i: nat, env: RxEnv, memLen: nat)
    requires env.size > 0 && Inside(a, len, i, env, memLen)
    ensures Rel(a, env) == i
  {
    ChunkOfBase(i, a - Start(i, env), env.size);
  }

  /** The bytes lie in the chunk of one of n rx frames. */
  ghost predicate InArea(a: nat, len: nat, n: nat, env: RxEnv, memLen: nat)
    requires env.size > 0
  {
    Rel(a, env) < n && Inside(a, len, Rel(a, env), env, memLen)
  }

  /** The code's recovery of the index from a descriptor's address, wherever in the chunk it points. */
  lemma RecoverIndex(a: nat, len: nat, n: nat, env: RxEnv, memLen: nat)
    requires 0 < env.size < TWO32 && Base(n, env.size) <= TWO32 && InArea(a, len, n, env, memLen)
    ensures RxIndex(a, env.offset, env.size) == Rel(a, env) < n
  {
    var i := Rel(a, env);
    BasesApart(i, n, env.size);
    RxIndexExact(env.offset, i, a - Start(i, env), env.size);
  }

  ghost predicate PlacedAt(f: Frame, i: nat, env: RxEnv, memLen: nat) {
    f.addr + f.len <= memLen && Inside(f.addr, f.len, i, env, memLen)
  }

  /** All frames lie in memory, frame i somewhere in chunk i. */
  ghost predicate Placed(frames: seq<Frame>, env: RxEnv, memLen: nat) {
    && 0 < env.size < TWO32 && 0 < |frames| && Base(|frames|, env.size) <= TWO32
    && Start(|frames|, env) <= memLen
    && forall i {:trigger frames[i]} :: 0 <= i < |frames| ==> PlacedAt(frames[i], i, env, memLen)
  }

  ghost predicate Addresses(q: seq<nat>, n: nat, env: RxEnv, memLen: nat)
    requires env.size > 0
  {
    forall k {:trigger q[k]} :: 0 <= k < |q| ==> InArea(q[k], 0, n, env, memLen)
  }

  ghost predicate Named(d: Desc, n: nat, env: RxEnv, memLen: nat)
    requires env.size > 0
  {
    d.addr + d.len <= memLen && InArea(d.addr, d.len, n, env, memLen)
  }

  ghost predicate Descriptors(q: seq<Desc>, n: nat, env: RxEnv, memLen: nat)
    requires env.size > 0
  {
    forall k {:trigger q[k]} :: 0 <= k < |q| ==> Named(q[k], n, env, memLen)
  }

  /** What waits in a frame. */
  function Slot(f: Frame, mem: seq<Byte>): Option<Payload>
    requires f.addr + f.len <= |mem|
  {
    if f.status == Filled then Some(Bytes(mem, f.addr, f.len)) else None
  }

  function Slots(frames: seq<Frame>, mem: seq<Byte>): (r: seq<Option<Payload>>)
    requires forall i {:trigger frames[i]} :: 0 <= i < |frames| ==> frames[i].addr + frames[i].len <= |mem|
    ensures |r| == |frames|
    ensures forall i {:trigger r[i]} {:trigger frames[i]} :: 0 <= i < |frames| ==> r[i] == Slot(frames[i], mem)
  {
    if frames == [] then [] else
      Slots(frames[..|frames| - 1], mem) + [Slot(frames[|frames| - 1], mem)]
  }

  function Relatives(q: seq<nat>, env: RxEnv): (r: seq<nat>)
    requires env.size > 0
    ensures |r| == |q|
    ensures forall k {:trigger r[k]} {:trigger q[k]} :: 0 <= k < |q| ==> r[k] == Rel(q[k], env)
  {
    if q == [] then [] else Relatives(q[..|q| - 1], env) + [Rel(q[|q| - 1], env)]
  }

  /** What a descriptor on the rx ring reports. */
  function ArrivalOf(d: Desc, mem: seq<Byte>, env: RxEnv): R.Arrival
    requires env.size > 0 && d.addr + d.len <= |mem|
  {
    R.Arrival(Rel(d.addr, env), Bytes(mem, d.addr, d.len))
  }

  function Arrivals(q: seq<Desc>, mem: seq<Byte>, env: RxEnv): (r: seq<R.Arrival>)
    requires env.size > 0
    requires forall k {:trigger q[k]} :: 0 <= k < |q| ==> q[k].addr + q[k].len <= |mem|
    ensures |r| == |q|
    ensures forall k {:trigger r[k]} {:trigger q[k]} :: 0 <= k < |q| ==> r[k] == ArrivalOf(q[k], mem, env)
  {
    if q == [] then [] else
      Arrivals(q[..|q| - 1], mem, env) + [ArrivalOf(q[|q| - 1], mem, env)]
  }

  // ---------- the whole concrete state as a value ----------

  datatype RxView = RxView(
    env: RxEnv, frames: seq<Frame>, mem: seq<Byte>, cursor: nat, toFill: nat, pktsRx: nat, pktsDelivered: nat,
    fill: seq<nat>, held: seq<nat>, rx: seq<Desc>, arrived: seq<Payload>, delivered: seq<Payload>)

  /** Every address and descriptor on the kernel's side names a frame of this view. */
  ghost predicate Linked(v: RxView) {
    && 0 < v.env.size && v.cursor < |v.frames|
    && Placed(v.frames, v.env, |v.mem|)
    && Addresses(v.fill, |v.frames|, v.env, |v.mem|) && Addresses(v.held, |v.frames|, v.env, |v.mem|)
    && Descriptors(v.rx, |v.frames|, v.env, |v.mem|)
  }

  /** The protocol state a view stands for. */
  ghost function AbsOf(v: RxView): (s: R.RxState)
    requires Linked(v)
    ensures R.WellFormed(s)
  {
    R.RxState(R.RxConfig(|v.frames|, v.env.fillRingSize, v.env.rxRingSize),
              Slots(v.frames, v.mem), v.cursor, v.toFill, v.pktsRx, v.pktsDelivered,
              Relatives(v.fill, v.env), Relatives(v.held, v.env), Arrivals(v.rx, v.mem, v.env),
              v.arrived, v.delivered)
  }

  /** What the user side reads of the state is what the protocol reads. */
  lemma AbsReads(v: RxView)
    requires Linked(v)
    ensures v.cursor < |v.frames| == AbsOf(v).cfg.frames == |AbsOf(v).slots| && 0 < v.env.size < TWO32
    ensures AbsOf(v).cfg == R.RxConfig(|v.frames|, v.env.fillRingSize, v.env.rxRingSize)
    ensures v.frames[v.cursor].addr + v.frames[v.cursor].len <= |v.mem|
    ensures AbsOf(v).slots[v.cursor] == Slot(v.frames[v.cursor], v.mem)
    ensures AbsOf(v).cursor == v.cursor && AbsOf(v).toFill == v.toFill
    ensures |AbsOf(v).fill| == |v.fill| && |AbsOf(v).rx| == |v.rx|
    ensures v.env.offset <= |v.mem|
  {
    hide Base;
    assert PlacedAt(v.frames[v.cursor], v.cursor, v.env, |v.mem|);
  }

  // ---------- kernel ----------

  ghost function TakenFill(v: RxView): RxView {
    if v.fill == [] then v else v.(fill := v.fill[1..], held := v.held + [v.fill[0]])
  }

  lemma RelativesSum(p: seq<nat>, q: seq<nat>, env: RxEnv)
    requires env.size > 0
    ensures Relatives(p + q, env) == Relatives(p, env) + Relatives(q, env)
  {
    hide Rel;
  }

  lemma RelativesRest(q: seq<nat>, env: RxEnv)
    requires env.size > 0 && q != []
    ensures Relatives(q[1..], env) == Relatives(q, env)[1..] && Relatives([q[0]], env) == [Relatives(q, env)[0]]
  {
    hide Rel;
  }

  lemma RelativesWithout(q: seq<nat>, i: nat, env: RxEnv)
    requires env.size > 0 && i < |q|
    ensures Relatives(Without(q, i), env) == Without(Relatives(q, env), i)
  {
    hide Rel;
  }

  lemma AddressesSum(p: seq<nat>, q: seq<nat>, n: nat, env: RxEnv, memLen: nat)
    requires env.size > 0 && Addresses(p, n, env, memLen) && Addresses(q, n, env, memLen)
    ensures Addresses(p + q, n, env, memLen)
  {
    hide InArea;
  }

  lemma AddressesWithout(q: seq<nat>, i: nat, n: nat, env: RxEnv, memLen: nat)
    requires env.size > 0 && Addresses(q, n, env, memLen) && i < |q|
    ensures Addresses(Without(q, i), n, env, memLen)
  {
    hide InArea;
  }

  lemma AddressesRest(q: seq<nat>, n: nat, env: RxEnv, memLen: nat)
    requires env.size > 0 && Addresses(q, n, env, memLen) && q != []
    ensures Addresses(q[1..], n, env, memLen) && Addresses([q[0]], n, env, memLen)
  {
    hide InArea;
  }

  lemma TakeFillStep(v: RxView)
    requires Linked(v)
    ensures Linked(TakenFill(v)) && AbsOf(TakenFill(v)) == R.Kernel(AbsOf(v), R.TakeFill)
  {
    hide Placed;
    hide Addresses;
    hide Descriptors;
    hide Slots;
    hide Arrivals;
    hide Relatives;
    if v.fill != [] {
      AddressesRest(v.fill, |v.frames|, v.env, |v.mem|);
      AddressesSum(v.held, [v.fill[0]], |v.frames|, v.env, |v.mem|);
      RelativesRest(v.fill, v.env);
      RelativesSum(v.held, [v.fill[0]], v.env);
    }
  }

  /** A kernel action on addresses: a packet lands off bytes into its chunk and stays in it. */
  datatype KernelStep =
    | TakeFill
    | Deliver(i: nat, off: nat, p: Payload, options: nat)

  predicate Fits(step: KernelStep, size: nat) {
    step.Deliver? ==> step.off < size && step.off + |step.p| <= size
  }

  predicate AllFit(turn: seq<KernelStep>, size: nat) {
    forall k :: 0 <= k < |turn| ==> Fits(turn[k], size)
  }

  predicate TurnsFit(turns: seq<seq<KernelStep>>, size: nat) {
    forall k :: 0 <= k < |turns| ==> AllFit(turns[k], size)
  }

  /** The protocol's view of a kernel action. */
  function StepOf(step: KernelStep): R.KernelStep {
    match step
    case TakeFill => R.TakeFill
    case Deliver(i, _, p, _) => R.Deliver(i, p)
  }

  function TurnOf(turn: seq<KernelStep>): (r: R.Turn)
    ensures |r| == |turn|
    ensures forall k {:trigger r[k]} {:trigger turn[k]} :: 0 <= k < |turn| ==> r[k] == StepOf(turn[k])
  {
    if turn == [] then [] else TurnOf(turn[..|turn| - 1]) + [StepOf(turn[|turn| - 1])]
  }

  function TurnsOf(turns: seq<seq<KernelStep>>): (r: seq<R.Turn>)
    ensures |r| == |turns|
    ensures forall k {:trigger r[k]} {:trigger turns[k]} :: 0 <= k < |turns| ==> r[k] == TurnOf(turns[k])
  {
    if turns == [] then [] else TurnsOf(turns[..|turns| - 1]) + [TurnOf(turns[|turns| - 1])]
  }

  /** A write into one chunk does not change bytes in another. */
  lemma OtherChunk(mem: seq<Byte>, env: RxEnv, j: nat, addr: nat, data: Payload, i: nat, a: nat, len: nat)
    requires i != j && Inside(addr, |data|, j, env, |mem|) && Inside(a, len, i, env, |mem|)
    ensures Bytes(Written(mem, addr, data), a, len) == Bytes(mem, a, len)
  {
    hide Base;
    if i < j { BasesApart(i, j, env.size); } else { BasesApart(j, i, env.size); }
    Umem.ReadElsewhere(mem, addr, data, a, len);
  }

  lemma SlotKept(f: Frame, i: nat, mem: seq<Byte>, env: RxEnv, j: nat, addr: nat, data: Payload)
    requires PlacedAt(f, i, env, |mem|) && Inside(addr, |data|, j, env, |mem|)
    requires i == j ==> f.status != Filled
    ensures Slot(f, Written(mem, addr, data)) == Slot(f, mem)
  {
    hide Base;
    hide Written;
    hide Bytes;
    if i != j {
      OtherChunk(mem, env, j, addr, data, i, f.addr, f.len);
    }
  }

  lemma SlotsKept(frames: seq<Frame>, mem: seq<Byte>, env: RxEnv, j: nat, addr: nat, data: Payload)
    requires Placed(frames, env, |mem|) && j < |frames| && Inside(addr, |data|, j, env, |mem|)
    requires frames[j].status != Filled
    ensures Slots(frames, Written(mem, addr, data)) == Slots(frames, mem)
  {
    hide Base;
    hide Written;
    hide Slot;
    hide Slots;
    var mem' := Written(mem, addr, data);
    forall i: nat | i < |frames| ensures Slot(frames[i], mem') == Slot(frames[i], mem) {
      SlotKept(frames[i], i, mem, env, j, addr, data);
    }
  }

  lemma ArrivalKept(d: Desc, n: nat, mem: seq<Byte>, env: RxEnv, j: nat, addr: nat, data: Payload)
    requires env.size > 0 && Named(d, n, env, |mem|) && Inside(addr, |data|, j, env, |mem|) && Rel(d.addr, env) != j
    ensures ArrivalOf(d, Written(mem, addr, data), env) == ArrivalOf(d, mem, env)
  {
    hide Rel;
    hide Base;
    hide Written;
    hide Bytes;
    OtherChunk(mem, env, j, addr, data, Rel(d.addr, env), d.addr, d.len);
  }

  lemma ArrivalsKept(q: seq<Desc>, mem: seq<Byte>, env: RxEnv, n: nat, j: nat, addr: nat, data: Payload)
    requires env.size > 0 && Descriptors(q, n, env, |mem|) && Inside(addr, |data|, j, env, |mem|)
    requires j !in R.FramesOf(Arrivals(q, mem, env))
    ensures Arrivals(q, Written(mem, addr, data), env) == Arrivals(q, mem, env)
  {
    hide Rel;
    hide Base;
    hide Written;
    hide Bytes;
    hide Arrivals;
    hide R.FramesOf;
    hide InArea;
    var mem' := Written(mem, addr, data);
    forall k: nat | k < |q| ensures ArrivalOf(q[k], mem', env) == ArrivalOf(q[k], mem, env) {
      assert R.FramesOf(Arrivals(q, mem, env))[k] == Rel(q[k].addr, env);
      ArrivalKept(q[k], n, mem, env, j, addr, data);
    }
  }

  lemma ArrivalsSum(p: seq<Desc>, q: seq<Desc>, mem: seq<Byte>, env: RxEnv)
    requires env.size > 0
    requires forall k {:trigger p[k]} :: 0 <= k < |p| ==> p[k].addr + p[k].len <= |mem|
    requires forall k {:trigger q[k]} :: 0 <= k < |q| ==> q[k].addr + q[k].len <= |mem|
    ensures forall k {:trigger (p + q)[k]} :: 0 <= k < |p + q| ==> (p + q)[k].addr + (p + q)[k].len <= |mem|
    ensures Arrivals(p + q, mem, env) == Arrivals(p, mem, env) + Arrivals(q, mem, env)
  {
    hide ArrivalOf;
  }

  /** Where in memory a delivery to the i-th frame held starts. */
  ghost function Target(v: RxView, i: nat, off: nat): nat
    requires Linked(v) && i < |v.held|
  {
    Start(Rel(v.held[i], v.env), v.env) + off
  }

  lemma TargetInside(v: RxView, i: nat, off: nat, p: Payload)
    requires Linked(v) && i < |v.held| && off < v.env.size && off + |p| <= v.env.size
    ensures Rel(v.held[i], v.env) < |v.frames|
    ensures Inside(Target(v, i, off), |p|, Rel(v.held[i], v.env), v.env, |v.mem|)
    ensures Rel(Target(v, i, off), v.env) == Rel(v.held[i], v.env)
  {
    hide Base;
    hide Rel;
    assert InArea(v.held[i], 0, |v.frames|, v.env, |v.mem|);
    InsideRel(Target(v, i, off), |p|, Rel(v.held[i], v.env), v.env, |v.mem|);
  }

  ghost function Delivered(v: RxView, i: nat, off: nat, p: Payload, options: nat): RxView
    requires Linked(v) && off < v.env.size && off + |p| <= v.env.size
  {
    if i < |v.held| && |v.rx| < v.env.rxRingSize then
      TargetInside(v, i, off, p);
      var addr := Target(v, i, off);
      v.(held := Without(v.held, i), rx := v.rx + [Desc(addr, |p|, options)],
         mem := Written(v.mem, addr, p), arrived := v.arrived + [p])
    else v
  }

  lemma DescriptorsSum(p: seq<Desc>, d: Desc, n: nat, env: RxEnv, memLen: nat)
    requires env.size > 0 && Descriptors(p, n, env, memLen) && Named(d, n, env, memLen)
    ensures Descriptors(p + [d], n, env, memLen)
  {
    hide Named;
  }

  lemma OneArrival(d: Desc, mem: seq<Byte>, env: RxEnv)
    requires env.size > 0 && d.addr + d.len <= |mem|
    ensures Arrivals([d], mem, env) == [ArrivalOf(d, mem, env)]
  {
    hide ArrivalOf;
  }

  /** The new descriptor reads back the packet. */
  lemma NewArrival(q: seq<Desc>, n: nat, mem: seq<Byte>, env: RxEnv, j: nat, d: Desc, p: Payload)
    requires env.size > 0 && Descriptors(q, n, env, |mem|)
    requires d.len == |p| && Inside(d.addr, |p|, j, env, |mem|) && Rel(d.addr, env) == j < n
    requires j !in R.FramesOf(Arrivals(q, mem, env))
    ensures var mem' := Written(mem, d.addr, p);
            && Descriptors(q + [d], n, env, |mem'|)
            && Arrivals(q + [d], mem', env) == Arrivals(q, mem, env) + [R.Arrival(j, p)]
  {
    hide Rel;
    hide Base;
    hide Written;
    hide Bytes;
    hide Arrivals;
    hide R.FramesOf;
    var mem' := Written(mem, d.addr, p);
    ArrivalsKept(q, mem, env, n, j, d.addr, p);
    ReadBack(mem, d.addr, p);
    DescriptorsSum(q, d, n, env, |mem|);
    OneArrival(d, mem', env);
    ArrivalsSum(q, [d], mem', env);
  }

  /** A delivery lands in a frame in which nothing waits, so it changes no waiting packet; and it
      changes no byte in front of the rx frames. */
  lemma DeliverStep(v: RxView, i: nat, off: nat, p: Payload, options: nat, kept: seq<nat>)
    requires Linked(v) && off < v.env.size && off + |p| <= v.env.size && Ready(AbsOf(v), kept)
    ensures Linked(Delivered(v, i, off, p, options))
    ensures AbsOf(Delivered(v, i, off, p, options)) == R.Kernel(AbsOf(v), R.Deliver(i, p))
    ensures v.env.offset <= |v.mem| && Delivered(v, i, off, p, options).mem[..v.env.offset] == v.mem[..v.env.offset]
  {
    hide Rel;
    hide Base;
    hide Placed;
    hide Ready;
    hide Addresses;
    hide Descriptors;
    hide Slots;
    hide Arrivals;
    hide Relatives;
    hide Without;
    AbsReads(v);
    if i < |v.held| && |v.rx| < v.env.rxRingSize {
      TargetIsEmpty(AbsOf(v), kept, i);
      TargetInside(v, i, off, p);
      NewArrival(v.rx, |v.frames|, v.mem, v.env, Rel(v.held[i], v.env), Desc(Target(v, i, off), |p|, options), p);
      SlotsKept(v.frames, v.mem, v.env, Rel(v.held[i], v.env), Target(v, i, off), p);
      AddressesWithout(v.held, i, |v.frames|, v.env, |v.mem|);
      RelativesWithout(v.held, i, v.env);
    }
  }

  // ---------- consuming descriptors ----------

  lemma ArrivalsParts(q: seq<Desc>, k: nat, mem: seq<Byte>, env: RxEnv)
    requires env.size > 0 && k <= |q|
    requires forall i {:trigger q[i]} :: 0 <= i < |q| ==> q[i].addr + q[i].len <= |mem|
    ensures Arrivals(q[k..], mem, env) == Arrivals(q, mem, env)[k..]
    ensures Arrivals(q[..k], mem, env) == Arrivals(q, mem, env)[..k]
  {
    hide ArrivalOf;
  }

  lemma DescriptorsParts(q: seq<Desc>, k: nat, n: nat, env: RxEnv, memLen: nat)
    requires env.size > 0 && Descriptors(q, n, env, memLen) && k <= |q|
    ensures Descriptors(q[k..], n, env, memLen) && Descriptors(q[..k], n, env, memLen)
  {
    hide Named;
  }

  ghost function Consumed(v: RxView, k: nat): RxView
    requires k <= |v.rx| && k <= v.toFill
  {
    v.(rx := v.rx[k..], toFill := v.toFill - k, pktsRx := v.pktsRx + k)
  }

  lemma ConsumeStep(v: RxView, k: nat)
    requires Linked(v) && k <= |v.rx| && k <= v.toFill
    ensures Linked(Consumed(v, k)) && AbsOf(Consumed(v, k)) == R.Consume(AbsOf(v), k)
    ensures Descriptors(v.rx[..k], |v.frames|, v.env, |v.mem|)
    ensures Arrivals(v.rx[..k], v.mem, v.env) == AbsOf(v).rx[..k]
  {
    hide Placed;
    hide Addresses;
    hide Named;
    hide Slots;
    hide Arrivals;
    hide Relatives;
    DescriptorsParts(v.rx, k, |v.frames|, v.env, |v.mem|);
    DescriptorBounds(v.rx, |v.frames|, v.env, |v.mem|);
    ArrivalsParts(v.rx, k, v.mem, v.env);
  }

  lemma DescriptorBounds(q: seq<Desc>, n: nat, env: RxEnv, memLen: nat)
    requires env.size > 0 && Descriptors(q, n, env, memLen)
    ensures forall i {:trigger q[i]} :: 0 <= i < |q| ==> q[i].addr + q[i].len <= memLen
  {
    hide InArea;
  }

  /** A frame record after a descriptor for it was read; update_rx_frames also marks it Filled. */
  function Refreshed(f: Frame, d: Desc, filled: bool): Frame {
    f.(addr := d.addr, len := d.len, options := d.options, status := if filled then Filled else f.status)
  }

  function Updated(frames: seq<Frame>, ds: seq<Desc>, env: RxEnv, filled: bool): (r: seq<Frame>)
    requires env.size > 0 && forall k {:trigger ds[k]} :: 0 <= k < |ds| ==> Rel(ds[k].addr, env) < |frames|
    ensures |r| == |frames|
  {
    if ds == [] then frames else
      var last := |ds| - 1;
      var r := Updated(frames, ds[..last], env, filled);
      var i := Rel(ds[last].addr, env);
      r[i := Refreshed(r[i], ds[last], filled)]
  }

  ghost predicate Names(ds: seq<Desc>, n: nat, env: RxEnv)
    requires env.size > 0
  {
    forall k {:trigger ds[k]} :: 0 <= k < |ds| ==> Rel(ds[k].addr, env) < n
  }

  lemma DescriptorNames(ds: seq<Desc>, n: nat, env: RxEnv, memLen: nat)
    requires env.size > 0 && Descriptors(ds, n, env, memLen)
    ensures Names(ds, n, env)
  {
    hide Rel;
    hide Inside;
  }

  lemma RefreshedPlaced(frames: seq<Frame>, d: Desc, env: RxEnv, memLen: nat, filled: bool)
    requires Placed(frames, env, memLen) && Named(d, |frames|, env, memLen)
    ensures var i := Rel(d.addr, env); Placed(frames[i := Refreshed(frames[i], d, filled)], env, memLen)
  {
    hide Rel;
    hide Inside;
    hide Base;
  }

  lemma {:induction false} UpdatedPlaced(frames: seq<Frame>, ds: seq<Desc>, env: RxEnv, memLen: nat, filled: bool)
    requires env.size > 0 && Placed(frames, env, memLen) && Descriptors(ds, |frames|, env, memLen)
    ensures Names(ds, |frames|, env) && Placed(Updated(frames, ds, env, filled), env, memLen)
    decreases |ds|
  {
    hide Placed;
    hide Rel;
    hide Inside;
    hide Refreshed;
    DescriptorNames(ds, |frames|, env, memLen);
    if ds != [] {
      var last := |ds| - 1;
      assert Named(ds[last], |frames|, env, memLen);
      DescriptorsParts(ds, last, |frames|, env, memLen);
      UpdatedPlaced(frames, ds[..last], env, memLen, filled);
      RefreshedPlaced(Updated(frames, ds[..last], env, filled), ds[last], env, memLen, filled);
    }
  }

  lemma RefreshedSlots(frames: seq<Frame>, d: Desc, i: nat, mem: seq<Byte>, env: RxEnv)
    requires Placed(frames, env, |mem|) && i < |frames| && d.addr + d.len <= |mem|
    requires Placed(frames[i := Refreshed(frames[i], d, true)], env, |mem|)
    ensures Slots(frames[i := Refreshed(frames[i], d, true)], mem)
            == Slots(frames, mem)[i := Some(Bytes(mem, d.addr, d.len))]
  {
    hide Inside;
    hide Base;
    hide Slots;
  }

  /** Marking the frames of descriptors Filled is what the protocol calls MarkFilled. */
  lemma {:induction false} UpdatedSlots(frames: seq<Frame>, ds: seq<Desc>, mem: seq<Byte>, env: RxEnv)
    requires env.size > 0 && Placed(frames, env, |mem|) && Descriptors(ds, |frames|, env, |mem|)
    ensures Names(ds, |frames|, env) && Placed(Updated(frames, ds, env, true), env, |mem|)
    ensures Below(R.FramesOf(Arrivals(ds, mem, env)), |frames|)
    ensures Slots(Updated(frames, ds, env, true), mem) == R.MarkFilled(Slots(frames, mem), Arrivals(ds, mem, env))
    decreases |ds|
  {
    hide InArea;
    hide Rel;
    hide Base;
    hide Slots;
    hide Bytes;
    hide Refreshed;
    hide Arrivals;
    hide R.FramesOf;
    UpdatedPlaced(frames, ds, env, |mem|, true);
    DescriptorBounds(ds, |frames|, env, |mem|);
    ArrivalsBelow(ds, |frames|, mem, env);
    if ds != [] {
      var last := |ds| - 1;
      var init, d := ds[..last], ds[last];
      DescriptorsParts(ds, last, |frames|, env, |mem|);
      UpdatedPlaced(frames, init, env, |mem|, true);
      UpdatedSlots(frames, init, mem, env);
      ArrivalsParts(ds, last, mem, env);
      RefreshedSlots(Updated(frames, init, env, true), d, Rel(d.addr, env), mem, env);
    }
  }

  lemma ArrivalsBelow(ds: seq<Desc>, n: nat, mem: seq<Byte>, env: RxEnv)
    requires env.size > 0 && Descriptors(ds, n, env, |mem|)
    ensures Below(R.FramesOf(Arrivals(ds, mem, env)), n)
  {
    hide Rel;
    hide Inside;
    hide Bytes;
  }

  ghost function Received(v: RxView, k: nat): RxView
    requires Linked(v) && k <= |v.rx| && k <= v.toFill
  {
    DescriptorNames(v.rx, |v.frames|, v.env, |v.mem|);
    Consumed(v, k).(frames := Updated(v.frames, v.rx[..k], v.env, true))
  }

  lemma ReceiveStep(v: RxView, k: nat)
    requires Linked(v) && k <= |v.rx| && k <= v.toFill
    ensures Linked(Received(v, k)) && AbsOf(Received(v, k)) == R.Receive(AbsOf(v), k)
  {
    hide Placed;
    hide Addresses;
    hide Descriptors;
    hide Slots;
    hide Arrivals;
    hide Relatives;
    hide Updated;
    ConsumeStep(v, k);
    UpdatedSlots(v.frames, v.rx[..k], v.mem, v.env);
  }

  /** None of the descriptors is for a frame in which a packet waits. */
  ghost predicate ForEmpty(frames: seq<Frame>, ds: seq<Desc>, env: RxEnv)
    requires env.size > 0
  {
    && Names(ds, |frames|, env)
    && forall k {:trigger ds[k]} :: 0 <= k < |ds| ==> frames[Rel(ds[k].addr, env)].status != Filled
  }

  lemma RecordedOne(frames: seq<Frame>, d: Desc, i: nat, mem: seq<Byte>, env: RxEnv)
    requires Placed(frames, env, |mem|) && i < |frames| && frames[i].status != Filled
    requires Placed(frames[i := Refreshed(frames[i], d, false)], env, |mem|)
    ensures Slots(frames[i := Refreshed(frames[i], d, false)], mem) == Slots(frames, mem)
  {
    hide Inside;
    hide Base;
    hide Slots;
  }

  /** Recording descriptors without marking their frames Filled leaves what waits where it is. */
  lemma {:induction false} RecordedSlots(frames: seq<Frame>, ds: seq<Desc>, mem: seq<Byte>, env: RxEnv)
    requires env.size > 0 && Placed(frames, env, |mem|) && Descriptors(ds, |frames|, env, |mem|)
    requires ForEmpty(frames, ds, env)
    ensures Placed(Updated(frames, ds, env, false), env, |mem|)
    ensures Slots(Updated(frames, ds, env, false), mem) == Slots(frames, mem)
    decreases |ds|
  {
    hide InArea;
    hide Rel;
    hide Base;
    hide Slots;
    hide Bytes;
    hide Refreshed;
    UpdatedPlaced(frames, ds, env, |mem|, false);
    if ds != [] {
      var last := |ds| - 1;
      var init, i := ds[..last], Rel(ds[last].addr, env);
      DescriptorsParts(ds, last, |frames|, env, |mem|);
      UpdatedPlaced(frames, init, env, |mem|, false);
      RecordedSlots(frames, init, mem, env);
      var r := Updated(frames, init, env, false);
      assert Slots(r, mem)[i] == Slots(frames, mem)[i];
      assert r[i].status != Filled;
      RecordedOne(r, ds[last], i, mem, env);
    }
  }

  ghost function Processed(v: RxView, k: nat): RxView
    requires Linked(v) && k <= |v.rx| && k <= v.toFill
  {
    DescriptorNames(v.rx, |v.frames|, v.env, |v.mem|);
    Consumed(v, k).(frames := Updated(v.frames, v.rx[..k], v.env, false),
                    delivered := v.delivered + R.PayloadsOf(AbsOf(v).rx[..k]))
  }

  lemma RingIsForEmpty(v: RxView, k: nat)
    requires Linked(v) && k <= |v.rx| && Ready(AbsOf(v), [])
    ensures ForEmpty(v.frames, v.rx[..k], v.env)
  {
    hide Placed;
    hide Addresses;
    hide Rel;
    hide Inside;
    hide Slots;
    hide Arrivals;
    hide Relatives;
    DescriptorNames(v.rx, |v.frames|, v.env, |v.mem|);
    var s := AbsOf(v);
    var cycle := RI.Cycle(s) + [];
    forall i | 0 <= i < k ensures v.frames[Rel(v.rx[i].addr, v.env)].status != Filled {
      assert cycle[i] == R.FramesOf(s.rx)[i] == s.rx[i].frame == Rel(v.rx[i].addr, v.env);
      assert s.slots[cycle[i]].None?;
    }
  }

  lemma ProcessStep(v: RxView, k: nat)
    requires Linked(v) && k <= |v.rx| && k <= v.toFill && Ready(AbsOf(v), [])
    ensures Linked(Processed(v, k)) && AbsOf(Processed(v, k)) == R.Processed(AbsOf(v), k)
  {
    hide Placed;
    hide Addresses;
    hide Descriptors;
    hide Slots;
    hide Arrivals;
    hide Relatives;
    hide Updated;
    hide Ready;
    ConsumeStep(v, k);
    RingIsForEmpty(v, k);
    RecordedSlots(v.frames, v.rx[..k], v.mem, v.env);
  }

  // ---------- giving frames back ----------

  function AddressesOf(frames: seq<Frame>): (q: seq<nat>)
    ensures |q| == |frames|
    ensures forall k {:trigger q[k]} {:trigger frames[k]} :: 0 <= k < |q| ==> q[k] == frames[k].addr
  {
    if frames == [] then [] else AddressesOf(frames[..|frames| - 1]) + [frames[|frames| - 1].addr]
  }

  lemma RefillStep(v: RxView, q: seq<nat>)
    requires Linked(v) && Addresses(q, |v.frames|, v.env, |v.mem|)
    ensures Linked(v.(fill := v.fill + q))
    ensures AbsOf(v.(fill := v.fill + q)) == AbsOf(v).(fill := AbsOf(v).fill + Relatives(q, v.env))
  {
    hide Placed;
    hide Addresses;
    hide Descriptors;
    hide Slots;
    hide Arrivals;
    hide Relatives;
    AddressesSum(v.fill, q, |v.frames|, v.env, |v.mem|);
    RelativesSum(v.fill, q, v.env);
  }

  lemma CursorAddress(v: RxView)
    requires Linked(v)
    ensures Addresses([v.frames[v.cursor].addr], |v.frames|, v.env, |v.mem|)
    ensures Relatives([v.frames[v.cursor].addr], v.env) == [v.cursor]
  {
    hide Base;
    hide Rel;
    var f := v.frames[v.cursor];
    assert PlacedAt(f, v.cursor, v.env, |v.mem|);
    InsideRel(f.addr, f.len, v.cursor, v.env, |v.mem|);
  }

  /** The bookkeeping after the frame at the cursor was resubmitted. */
  ghost function HandedOver(v: RxView, p: Payload): RxView
    requires v.cursor < |v.frames|
  {
    v.(delivered := v.delivered + [p], pktsDelivered := v.pktsDelivered + 1,
       frames := v.frames[v.cursor := v.frames[v.cursor].(status := Free)],
       toFill := v.toFill + 1, cursor := Wrap(v.cursor + 1, |v.frames|))
  }

  lemma FreedSlots(frames: seq<Frame>, c: nat, mem: seq<Byte>, env: RxEnv)
    requires Placed(frames, env, |mem|) && c < |frames|
    ensures Placed(frames[c := frames[c].(status := Free)], env, |mem|)
    ensures Slots(frames[c := frames[c].(status := Free)], mem) == Slots(frames, mem)[c := None]
  {
    hide Base;
    hide Inside;
    hide Slots;
  }

  lemma HandOverStep(v: RxView, p: Payload)
    requires Linked(v)
    ensures Linked(HandedOver(v, p)) && AbsOf(HandedOver(v, p)) == R.Delivered(AbsOf(v), p)
  {
    hide Placed;
    hide Addresses;
    hide Descriptors;
    hide Slots;
    hide Arrivals;
    hide Relatives;
    FreedSlots(v.frames, v.cursor, v.mem, v.env);
  }

  lemma CountStep(v: RxView, n: nat)
    requires Linked(v)
    ensures Linked(v.(pktsDelivered := v.pktsDelivered + n, toFill := v.toFill + n))
    ensures AbsOf(v.(pktsDelivered := v.pktsDelivered + n, toFill := v.toFill + n))
            == AbsOf(v).(pktsDelivered := AbsOf(v).pktsDelivered + n, toFill := AbsOf(v).toFill + n)
  {
  }

  /** Right after construction all frames are offered to the fill ring, or none if they do not fit. */
  lemma InitialView(v: RxView)
    requires v.env.size > 0 && v.cursor == 0 < |v.frames| == v.toFill && Placed(v.frames, v.env, |v.mem|)
    requires forall i {:trigger v.frames[i]} :: 0 <= i < |v.frames| ==> v.frames[i].status == Free
    requires v.fill == if |v.frames| <= v.env.fillRingSize then AddressesOf(v.frames) else []
    requires v.held == [] && v.rx == [] && v.arrived == [] && v.delivered == [] && v.pktsRx == v.pktsDelivered == 0
    ensures Linked(v) && AbsOf(v) == R.Init(R.RxConfig(|v.frames|, v.env.fillRingSize, v.env.rxRingSize))
  {
    hide Base;
    hide Rel;
    hide AddressesOf;
    hide Relatives;
    hide Slots;
    forall i | 0 <= i < |v.frames|
      ensures InArea(v.frames[i].addr, 0, |v.frames|, v.env, |v.mem|) && Rel(v.frames[i].addr, v.env) == i
    {
      assert PlacedAt(v.frames[i], i, v.env, |v.mem|);
      InsideRel(v.frames[i].addr, v.frames[i].len, i, v.env, |v.mem|);
    }
    assert Slots(v.frames, v.mem) == seq(|v.frames|, _ => None);
    if |v.frames| <= v.env.fillRingSize {
      assert Relatives(v.fill, v.env) == Interval(0, |v.frames|);
    }
  }

  lemma AddressesBelow(q: seq<nat>, n: nat, env: RxEnv, memLen: nat)
    requires env.size > 0 && Addresses(q, n, env, memLen)
    ensures Below(Relatives(q, env), n)
  {
    hide Rel;
    hide Inside;
  }

  lemma AreaFits(v: RxView)
    requires Linked(v)
    ensures 0 < v.env.size < TWO32 && Base(|v.frames|, v.env.size) <= TWO32
    ensures Names(v.rx, |v.frames|, v.env)
  {
    hide Base;
    DescriptorNames(v.rx, |v.frames|, v.env, |v.mem|);
  }

  /** The frame records have the addresses of the descriptors. */
  ghost predicate SameAddresses(frames: seq<Frame>, ds: seq<Desc>) {
    |frames| == |ds| && forall k {:trigger frames[k]} :: 0 <= k < |frames| ==> frames[k].addr == ds[k].addr
  }

  /** The frames recv_apply gives back are those of the descriptors it read. */
  lemma GivenBack(frames: seq<Frame>, ds: seq<Desc>, n: nat, mem: seq<Byte>, env: RxEnv)
    requires env.size > 0 && Descriptors(ds, n, env, |mem|) && SameAddresses(frames, ds)
    ensures Addresses(AddressesOf(frames), n, env, |mem|)
    ensures Relatives(AddressesOf(frames), env) == R.FramesOf(Arrivals(ds, mem, env))
    ensures Below(Relatives(AddressesOf(frames), env), n)
  {
    hide Rel;
    hide Base;
    hide Bytes;
    hide Relatives;
    hide Arrivals;
    hide R.FramesOf;
    hide AddressesOf;
    AddressesBelow(AddressesOf(frames), n, env, |mem|);
  }

  lemma OneMorePayload(ds: seq<Desc>, k: nat, mem: seq<Byte>, env: RxEnv)
    requires env.size > 0 && k < |ds|
    requires forall i {:trigger ds[i]} :: 0 <= i < |ds| ==> ds[i].addr + ds[i].len <= |mem|
    ensures R.PayloadsOf(Arrivals(ds[..k + 1], mem, env))
            == R.PayloadsOf(Arrivals(ds[..k], mem, env)) + [Bytes(mem, ds[k].addr, ds[k].len)]
  {
    hide Rel;
    hide Bytes;
    hide Arrivals;
    hide R.PayloadsOf;
    assert ds[..k + 1][k] == ds[k];
  }

  // ---------- the other half of memory ----------

  lemma SameBytes(mem: seq<Byte>, mem': seq<Byte>, from: nat, a: nat, len: nat)
    requires |mem'| == |mem| && from <= |mem| && mem'[from..] == mem[from..] && from <= a && a + len <= |mem|
    ensures Bytes(mem', a, len) == Bytes(mem, a, len)
  {
    assert mem'[a..a + len] == mem'[from..][a - from..a - from + len];
    assert mem[a..a + len] == mem[from..][a - from..a - from + len];
  }

  /** What is written in front of the rx frames does not matter to the receive side. */
  lemma OtherHalf(v: RxView, mem': seq<Byte>)
    requires Linked(v) && |mem'| == |v.mem| && v.env.offset <= |v.mem|
    requires mem'[v.env.offset..] == v.mem[v.env.offset..]
    ensures Linked(v.(mem := mem')) && AbsOf(v.(mem := mem')) == AbsOf(v)
  {
    hide Base;
    hide Rel;
    hide Bytes;
    hide Slots;
    hide Arrivals;
    hide Relatives;
    hide Addresses;
    forall i: nat | i < |v.frames| ensures Slot(v.frames[i], mem') == Slot(v.frames[i], v.mem) {
      assert PlacedAt(v.frames[i], i, v.env, |v.mem|);
      SameBytes(v.mem, mem', v.env.offset, v.frames[i].addr, v.frames[i].len);
    }
    forall k: nat | k < |v.rx| ensures ArrivalOf(v.rx[k], mem', v.env) == ArrivalOf(v.rx[k], v.mem, v.env) {
      assert Named(v.rx[k], |v.frames|, v.env, |v.mem|);
      SameBytes(v.mem, mem', v.env.offset, v.rx[k].addr, v.rx[k].len);
    }
    assert Slots(v.frames, mem') == Slots(v.frames, v.mem);
    assert Arrivals(v.rx, mem', v.env) == Arrivals(v.rx, v.mem, v.env);
  }

  lemma BaseSum(i: nat, j: nat, size: nat)
    ensures Base(i, size) + Base(j, size) == Base(i + j, size)
  {
  }

  /** The rx part of a fresh layout. */
  lemma LayoutPlaced(frames: seq<Frame>, c: UmemConfig, n: nat, env: RxEnv)
    requires Layout(frames, c) && n < |frames| && 0 < c.frameSize < TWO32 && Base(|frames| - n, c.frameSize) <= TWO32
    requires env.size == c.frameSize && env.offset == Base(n, c.frameSize)
    ensures Placed(frames[n..], env, Base(|frames|, c.frameSize)) && frames[n].addr == env.offset
    ensures forall i :: 0 <= i < |frames| - n ==> frames[n..][i].status == Free
  {
    hide Base;
    LayoutBases(frames, c);
    var rest := frames[n..];
    forall i: nat | i < |rest| ensures PlacedAt(rest[i], i, env, Base(|frames|, c.frameSize)) {
      assert rest[i] == frames[n + i];
      BaseSum(n, i, c.frameSize);
      BasesApart(n + i, |frames|, c.frameSize);
    }
    BaseSum(n, |rest|, c.frameSize);
  }
}
