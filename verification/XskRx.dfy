/** The receive end as the object the source has, run against rings and memory. Every method is
    proved to do to the protocol state exactly what the function of the same name does. */
module XskRxs {
  import opened Sequences
  import opened PowerOfTwo
  import opened Frames
  import opened Umem
  import opened Rings
  import opened RxLink
  import opened RxReady
  import R = RxProtocol

  /** How recv ended, as its caller sees it. */
  datatype RecvEnd = Received(len: nat) | Nothing | Panicked | StillSpinning

  ghost predicate RecvMatches(e: RecvEnd, buf: seq<Byte>, s: R.RxState, o: R.Outcome) {
    match o
    case Packet(s', p) => e == Received(|p|) && |p| <= |buf| && buf[..|p|] == p && s == s'
    case Empty(s') => e == Nothing && s == s'
    case Panicked => e == Panicked
    case Spinning(s', _) => e == StillSpinning && s == s'
    case Applied(_, _) => false
  }

  /** recv_apply returned or not, and the closure was given the packets the protocol says. */
  ghost predicate AppliedMatches(done: bool, seen: seq<Payload>, s: R.RxState, o: R.Outcome) {
    match o
    case Applied(s', ps) => done && s == s' && seen == ps
    case Spinning(s', _) => !done && s == s'
    case _ => false
  }

  lemma RefreshedReads(d: Desc, filled: bool)
    ensures forall f {:trigger Refreshed(f, d, filled)} ::
              Refreshed(f, d, filled).addr == d.addr && Refreshed(f, d, filled).len == d.len
  {
  }

  lemma CopiedIn(buf: seq<Byte>, data: Payload)
    requires |data| <= |buf|
    ensures Written(buf, 0, data)[..|data|] == data
  {
  }

  class XskRx {
    const fillQ: Ring<nat>
    const rxQ: Ring<Desc>
    const mem: array<Byte>
    const frameSize: nat
    const offset: nat
    const filledFrames: array<Desc>
    var rxFrames: seq<Frame>
    var processed: seq<Frame>
    var toFill: nat
    var cursor: nat
    var pktsRx: nat
    var pktsDelivered: nat
    ghost var delivered: seq<Payload>
    // The kernel's side: addresses it has taken from the fill ring and not yet used.
    var held: seq<nat>
    ghost var arrived: seq<Payload>

    /** What belongs to the receive half alone. */
    ghost function Own(): set<object> {
      {this, fillQ, fillQ.slots, rxQ, rxQ.slots, filledFrames}
    }

    ghost function Repr(): set<object> { Own() + {mem} }

    /** The objects are distinct and the rings are in order. */
    ghost predicate Shaped()
      reads this, fillQ, rxQ
    {
      && fillQ.Valid() && rxQ.Valid()
      && fillQ as object != rxQ && rxQ.slots != filledFrames
      && mem as object != fillQ.slots && mem as object != rxQ.slots && mem as object != filledFrames
      && fillQ.slots as object != rxQ.slots && fillQ.slots as object != filledFrames
      && filledFrames.Length == |rxFrames|
    }

    function Env(): RxEnv {
      RxEnv(frameSize, offset, fillQ.size, rxQ.size)
    }

    /** Everything the object holds, as a value. */
    ghost function Shot(): (v: RxView)
      requires Shaped()
      reads this, fillQ, rxQ, Repr()
    {
      RxView(Env(), rxFrames, mem[..], cursor, toFill, pktsRx, pktsDelivered,
             fillQ.Contents(), held, rxQ.Contents(), arrived, delivered)
    }

    ghost predicate Valid()
      reads Repr()
    {
      Shaped() && Linked(Shot())
    }

    /** The protocol state this object stands for. */
    ghost function Abs(): (s: R.RxState)
      requires Valid()
      reads Repr()
      ensures R.WellFormed(s)
    {
      AbsOf(Shot())
    }

    /** Between calls. */
    ghost predicate Quiet()
      reads Repr()
    {
      Valid() && processed == [] && Ready(Abs(), [])
    }

    /** The part of memory in front of the rx frames. */
    ghost function Front(): seq<Byte>
      reads mem
    {
      if offset <= mem.Length then mem[..offset] else []
    }

    /** What the code reads of its fields is what the protocol reads. */
    lemma Reads()
      requires Valid()
      ensures cursor < |rxFrames| == |Abs().slots| && Abs().cursor == cursor && Abs().toFill == toFill
      ensures Abs().cfg == R.RxConfig(|rxFrames|, fillQ.size, rxQ.size)
      ensures rxFrames[cursor].addr + rxFrames[cursor].len <= mem.Length
      ensures Abs().slots[cursor] == Slot(rxFrames[cursor], mem[..])
      ensures 0 < frameSize < TWO32
    {
      hide Linked;
      hide AbsOf;
      AbsReads(Shot());
    }

    constructor (rxQ: Ring<Desc>, fillQ: Ring<nat>, mem: array<Byte>, frames: seq<Frame>, frameSize: nat)
      requires rxQ.Valid() && fillQ.Valid() && rxQ.Contents() == [] && fillQ.Contents() == []
      requires fillQ as object != rxQ && fillQ.slots as object != rxQ.slots
      requires mem as object != fillQ.slots && mem as object != rxQ.slots
      requires 0 < |frames| && 0 < frameSize
      requires Placed(frames, RxEnv(frameSize, frames[0].addr, fillQ.size, rxQ.size), mem.Length)
      requires forall i :: 0 <= i < |frames| ==> frames[i].status == Free
      modifies fillQ`prod, fillQ.slots
      ensures Quiet() && fresh(filledFrames)
      ensures this.rxQ == rxQ && this.fillQ == fillQ && this.mem == mem && this.frameSize == frameSize
      ensures offset == frames[0].addr && |rxFrames| == |frames|
      ensures Abs() == R.Init(R.RxConfig(|frames|, fillQ.size, rxQ.size))
    {
      hide Placed;
      hide Linked;
      hide AbsOf;
      hide Ready;
      hide R.Init;
      hide AddressesOf;
      this.rxQ, this.fillQ, this.mem := rxQ, fillQ, mem;
      this.frameSize, this.offset := frameSize, frames[0].addr;
      filledFrames := new Desc[|frames|](_ => Desc(0, 0, 0));
      rxFrames, processed := frames, [];
      toFill, cursor, pktsRx, pktsDelivered := |frames|, 0, 0, 0;
      held, arrived, delivered := [], [], [];
      new;
      var n := fillQ.Produce(AddressesOf(frames));
      InitialView(Shot());
      InitReady(R.RxConfig(|frames|, fillQ.size, rxQ.size));
    }

    // ---------- kernel ----------

    method KernelTakeFill()
      requires Valid()
      modifies fillQ`cons, this`held
      ensures Valid() && Abs() == R.Kernel(old(Abs()), R.TakeFill)
    {
      hide Linked;
      hide AbsOf;
      hide R.Kernel;
      TakeFillStep(Shot());
      if fillQ.Count() > 0 {
        var a := fillQ.Pop();
        held := held + [a];
      }
      assert Shot() == TakenFill(old(Shot()));
    }

    /** The kernel writes the packet into the chunk of the i-th frame it holds. */
    method KernelDeliver(i: nat, off: nat, p: Payload, options: nat, ghost kept: seq<nat>)
      requires Valid() && Ready(Abs(), kept) && off < frameSize && off + |p| <= frameSize
      modifies rxQ`prod, rxQ.slots, mem, this`held, this`arrived
      ensures Valid() && Abs() == R.Kernel(old(Abs()), R.Deliver(i, p)) && Front() == old(Front())
    {
      hide Linked;
      hide AbsOf;
      hide Ready;
      hide R.Kernel;
      hide Rel;
      hide Start;
      hide Written;
      DeliverStep(Shot(), i, off, p, options, kept);
      if i < |held| && rxQ.Count() < rxQ.size {
        TargetInside(Shot(), i, off, p);
        Reads();
        var addr := Start(Rel(held[i], Env()), Env()) + off;
        CopyIn(mem, addr, p);
        var n := rxQ.Produce([Desc(addr, |p|, options)]);
        held, arrived := Without(held, i), arrived + [p];
      }
      assert Shot() == Delivered(old(Shot()), i, off, p, options);
    }

    method KernelTurn(turn: seq<KernelStep>, ghost kept: seq<nat>)
      requires Valid() && Ready(Abs(), kept) && AllFit(turn, frameSize)
      modifies fillQ`cons, rxQ`prod, rxQ.slots, mem, this`held, this`arrived
      ensures Valid() && Abs() == R.Run(old(Abs()), TurnOf(turn)) && Ready(Abs(), kept) && Front() == old(Front())
    {
      hide Valid;
      hide Abs;
      hide Ready;
      hide R.Run;
      hide R.Kernel;
      ghost var all := TurnOf(turn);
      assert all[0..] == all;
      for k := 0 to |turn|
        invariant Valid() && Ready(Abs(), kept) && Front() == old(Front())
        invariant R.Run(Abs(), all[k..]) == R.Run(old(Abs()), all)
      {
        R.RunFirst(Abs(), all[k], all[k + 1..]);
        assert all[k..] == [all[k]] + all[k + 1..];
        assert Fits(turn[k], frameSize);
        KernelReady(Abs(), all[k], kept);
        match turn[k] {
          case TakeFill => KernelTakeFill();
          case Deliver(i, off, p, options) => KernelDeliver(i, off, p, options, kept);
        }
      }
      assert all[|turn|..] == [];
      R.RunNothing(Abs());
    }

    // ---------- the first half of recv and recv_apply ----------

    /** poll_and_consume into filled_frames, and the counters. */
    method PollAndConsume(polled: bool) returns (n: nat)
      requires Quiet()
      modifies rxQ`cons, filledFrames, this`toFill, this`pktsRx
      ensures Shaped() && n == R.Available(old(Abs()), polled) && n <= |old(Shot()).rx| && n <= old(toFill)
      ensures Shot() == Consumed(old(Shot()), n)
      ensures n <= filledFrames.Length && filledFrames[..n] == old(Shot()).rx[..n]
    {
      hide Linked;
      hide AbsOf;
      hide Ready;
      AbsReads(Shot());
      DescriptorsFit(Abs(), []);
      n := 0;
      if polled {
        n := rxQ.Consume(toFill, filledFrames);
      }
      pktsRx := pktsRx + n;
      toFill := toFill - n;
      assert rxQ.Contents() == old(rxQ.Contents())[n..];
    }

    method UpdateRxFrames(n: nat)
      requires n <= filledFrames.Length && 0 < frameSize < TWO32 && Base(|rxFrames|, frameSize) <= TWO32
      requires Descriptors(filledFrames[..n], |rxFrames|, Env(), mem.Length)
      requires Names(filledFrames[..n], |rxFrames|, Env())
      modifies this`rxFrames
      ensures rxFrames == Updated(old(rxFrames), filledFrames[..n], Env(), true)
    {
      hide Base;
      hide Rel;
      hide Inside;
      hide Refreshed;
      ghost var ds := filledFrames[..n];
      for k := 0 to n
        invariant Names(ds[..k], |old(rxFrames)|, Env())
        invariant rxFrames == Updated(old(rxFrames), ds[..k], Env(), true)
      {
        var d := filledFrames[k];
        assert ds[..k + 1][..k] == ds[..k] && ds[k] == d;
        RecoverIndex(d.addr, d.len, |rxFrames|, Env(), mem.Length);
        var i := RxIndex(d.addr, offset, frameSize);
        rxFrames := rxFrames[i := Refreshed(rxFrames[i], d, true)];
      }
      assert ds[..n] == ds;
    }

    /** Read what the kernel reported and mark the frames Filled. */
    method ReceiveAll(polled: bool)
      requires Quiet()
      modifies rxQ`cons, filledFrames, this`toFill, this`pktsRx, this`rxFrames
      ensures Quiet() && Abs() == R.Receive(old(Abs()), R.Available(old(Abs()), polled))
      ensures mem[..] == old(mem[..])
    {
      hide Linked;
      hide AbsOf;
      hide Ready;
      hide R.Receive;
      hide R.Available;
      hide Base;
      hide Updated;
      var n := PollAndConsume(polled);
      ReceiveStep(old(Shot()), n);
      ReceiveReady(old(Abs()), n);
      ConsumeStep(old(Shot()), n);
      AreaFits(old(Shot()));
      UpdateRxFrames(n);
      assert Shot() == RxLink.Received(old(Shot()), n);
    }

    // ---------- resubmission ----------

    /** A refill loop over produce_and_wakeup. */
    method Refill(frames: seq<Frame>, turns: seq<seq<KernelStep>>, ghost q: seq<nat>, ghost kept: seq<nat>)
      returns (done: bool)
      requires Valid() && Ready(Abs(), kept) && TurnsFit(turns, frameSize) && frames != [] && 0 < frameSize
      requires Addresses(AddressesOf(frames), |rxFrames|, Env(), mem.Length)
      requires q == Relatives(AddressesOf(frames), Env()) && Below(q, Abs().cfg.frames)
      modifies fillQ, fillQ.slots, rxQ`prod, rxQ.slots, mem, this`held, this`arrived
      ensures Valid() && Front() == old(Front())
      ensures done == R.Refill(old(Abs()), q, TurnsOf(turns)).Submitted?
      ensures Abs() == R.Refill(old(Abs()), q, TurnsOf(turns)).s
    {
      hide Valid;
      hide Abs;
      hide Ready;
      hide R.Refill;
      hide R.Run;
      hide Addresses;
      hide Below;
      ghost var all := TurnsOf(turns);
      assert all[0..] == all;
      var used := 0;
      done := false;
      while used < |turns| && !done
        invariant used <= |turns| && Valid() && Front() == old(Front()) && Abs().cfg == old(Abs()).cfg
        invariant !done ==> Ready(Abs(), kept) && R.Refill(Abs(), q, all[used..]) == R.Refill(old(Abs()), q, all)
        invariant done ==> R.Refill(old(Abs()), q, all) == R.Submitted(Abs())
        decreases |turns| - used
      {
        R.RefillFirst(Abs(), q, all, used);
        KernelTurn(turns[used], kept);
        used := used + 1;
        done := TrySubmit(frames);
      }
      if !done {
        R.RefillLast(Abs(), q, all);
      }
    }

    /** One attempt to put the frames on the fill ring. */
    method TrySubmit(frames: seq<Frame>) returns (done: bool)
      requires Valid() && frames != [] && 0 < frameSize
      requires Addresses(AddressesOf(frames), |rxFrames|, Env(), mem.Length)
      modifies fillQ`prod, fillQ.slots
      ensures Valid() && done == (|old(Abs()).fill| + |frames| <= old(Abs()).cfg.fillRingSize)
      ensures Abs() == if done
                       then old(Abs()).(fill := old(Abs()).fill + Relatives(AddressesOf(frames), Env()))
                       else old(Abs())
      ensures mem[..] == old(mem[..])
    {
      hide Linked;
      hide AbsOf;
      hide Addresses;
      AbsReads(Shot());
      RefillStep(Shot(), AddressesOf(frames));
      var n := fillQ.Produce(AddressesOf(frames));
      done := n == |frames|;
      if done {
        assert Shot() == old(Shot()).(fill := old(Shot()).fill + AddressesOf(frames));
      } else {
        assert Shot() == old(Shot());
      }
    }

    // ---------- recv ----------

    /** The bookkeeping after the frame at the cursor was resubmitted. */
    method HandOver(ghost p: Payload)
      requires Valid()
      modifies this`pktsDelivered, this`rxFrames, this`toFill, this`cursor, this`delivered
      ensures Valid() && Abs() == R.Delivered(old(Abs()), p) && Front() == old(Front())
    {
      hide Linked;
      hide AbsOf;
      hide R.Delivered;
      AbsReads(Shot());
      HandOverStep(Shot(), p);
      WrapIsRemainder(cursor + 1, |rxFrames|);
      delivered := delivered + [p];
      pktsDelivered := pktsDelivered + 1;
      rxFrames := rxFrames[cursor := rxFrames[cursor].(status := Free)];
      toFill := toFill + 1;
      cursor := (cursor + 1) % |rxFrames|;
      assert Shot() == HandedOver(old(Shot()), p);
    }

    /** Put the frame at the cursor back on the fill ring. */
    method RefillAtCursor(turns: seq<seq<KernelStep>>) returns (done: bool)
      requires Quiet() && TurnsFit(turns, frameSize)
      modifies fillQ, fillQ.slots, rxQ`prod, rxQ.slots, mem, this`held, this`arrived
      ensures Valid() && Front() == old(Front())
      ensures done == R.Refill(old(Abs()), [old(Abs()).cursor], TurnsOf(turns)).Submitted?
      ensures Abs() == R.Refill(old(Abs()), [old(Abs()).cursor], TurnsOf(turns)).s
    {
      hide Linked;
      hide AbsOf;
      hide Ready;
      hide R.Refill;
      hide Addresses;
      AbsReads(Shot());
      CursorAddress(Shot());
      var frames := [rxFrames[cursor]];
      assert AddressesOf(frames) == [rxFrames[cursor].addr];
      done := Refill(frames, turns, [cursor], []);
    }

    /** The second half of recv. */
    method TakeAtCursor(buf: array<Byte>, turns: seq<seq<KernelStep>>) returns (e: RecvEnd)
      requires Quiet() && TurnsFit(turns, frameSize) && buf !in Repr()
      modifies Own(), mem, buf
      ensures Valid() && Front() == old(Front()) && processed == []
      ensures RecvMatches(e, buf[..], Abs(), R.TakeAtCursor(old(Abs()), buf.Length, TurnsOf(turns)))
      ensures e.Panicked? ==> Abs() == old(Abs()) && buf[..] == old(buf[..])
    {
      hide Valid;
      hide Abs;
      hide Ready;
      hide R.Refill;
      hide R.Delivered;
      Reads();
      var f := rxFrames[cursor];
      if f.status != Filled {
        return Nothing;
      }
      var data := ReadChecked(f, mem[..], f.len);
      if f.len > buf.Length {
        return Panicked;
      }
      CopyIn(buf, 0, data.value);
      CopiedIn(old(buf[..]), data.value);
      var done := RefillAtCursor(turns);
      if !done {
        return StillSpinning;
      }
      HandOver(data.value);
      e := Received(f.len);
    }

    method Recv(buf: array<Byte>, polled: bool, turns: seq<seq<KernelStep>>) returns (e: RecvEnd)
      requires Quiet() && TurnsFit(turns, frameSize) && buf !in Repr()
      modifies Own(), mem, buf
      ensures Valid() && Front() == old(Front())
      ensures RecvMatches(e, buf[..], Abs(), R.Recv(old(Abs()), buf.Length, polled, TurnsOf(turns)))
      ensures e.Panicked? ==> buf[..] == old(buf[..]) && Abs() == R.Receive(old(Abs()), R.Available(old(Abs()), polled))
      ensures e.Received? || e.Nothing? ==> Quiet()
    {
      hide Valid;
      hide Abs;
      hide Ready;
      hide R.TakeAtCursor;
      hide R.Receive;
      hide R.Available;
      RecvReady(Abs(), buf.Length, polled, TurnsOf(turns));
      ReceiveAll(polled);
      e := TakeAtCursor(buf, turns);
    }

    // ---------- recv_apply ----------

    /** The loop of apply_batch that records each descriptor and shows its packet to the closure;
        seen is what the closure was given, in order. */
    method ApplyFrames(n: nat) returns (seen: seq<Payload>)
      requires n <= filledFrames.Length && 0 < frameSize < TWO32 && Base(|rxFrames|, frameSize) <= TWO32
      requires Descriptors(filledFrames[..n], |rxFrames|, Env(), mem.Length)
      requires Names(filledFrames[..n], |rxFrames|, Env()) && processed == []
      modifies this`rxFrames, this`processed
      ensures rxFrames == Updated(old(rxFrames), filledFrames[..n], Env(), false)
      ensures SameAddresses(processed, filledFrames[..n])
      ensures seen == R.PayloadsOf(Arrivals(filledFrames[..n], mem[..], Env()))
    {
      hide Base;
      hide Rel;
      hide Inside;
      hide Refreshed;
      hide Arrivals;
      hide Bytes;
      hide R.PayloadsOf;
      seen := [];
      ghost var ds := filledFrames[..n];
      DescriptorBounds(ds, |rxFrames|, Env(), mem.Length);
      for k := 0 to n
        invariant Names(ds[..k], |old(rxFrames)|, Env())
        invariant rxFrames == Updated(old(rxFrames), ds[..k], Env(), false)
        invariant SameAddresses(processed, ds[..k])
        invariant seen == R.PayloadsOf(Arrivals(ds[..k], mem[..], Env()))
      {
        var d := filledFrames[k];
        assert ds[..k + 1][..k] == ds[..k] && ds[k] == d;
        RecoverIndex(d.addr, d.len, |rxFrames|, Env(), mem.Length);
        OneMorePayload(ds, k, mem[..], Env());
        var i := RxIndex(d.addr, offset, frameSize);
        rxFrames := rxFrames[i := Refreshed(rxFrames[i], d, false)];
        RefreshedReads(d, false);
        seen := seen + [Bytes(mem[..], rxFrames[i].addr, rxFrames[i].len)];
        processed := processed + [rxFrames[i]];
      }
      assert ds[..n] == ds;
    }

    /** Everything recv_apply does before it resubmits, when there is something to process. */
    method Process(n: nat, ghost was: RxView) returns (seen: seq<Payload>)
      requires Shaped() && Linked(was) && Ready(AbsOf(was), []) && processed == [] && was.env == Env()
      requires 0 < n <= |was.rx| && n <= was.toFill && n <= filledFrames.Length
      requires Shot() == Consumed(was, n) && filledFrames[..n] == was.rx[..n]
      modifies this`rxFrames, this`processed, this`delivered
      ensures Valid() && Abs() == R.Processed(AbsOf(was), n) && seen == R.PayloadsOf(AbsOf(was).rx[..n])
      ensures processed != [] && 0 < frameSize && |processed| == n
      ensures Addresses(AddressesOf(processed), |rxFrames|, Env(), mem.Length)
      ensures Relatives(AddressesOf(processed), Env()) == R.FramesOf(AbsOf(was).rx[..n])
      ensures Below(Relatives(AddressesOf(processed), Env()), Abs().cfg.frames)
    {
      hide Linked;
      hide AbsOf;
      hide Ready;
      hide Base;
      hide Addresses;
      hide Descriptors;
      hide Updated;
      hide R.Processed;
      hide R.PayloadsOf;
      hide R.FramesOf;
      AbsReads(was);
      ProcessStep(was, n);
      ConsumeStep(was, n);
      AreaFits(was);
      seen := ApplyFrames(n);
      GivenBack(processed, was.rx[..n], |was.frames|, was.mem, was.env);
      delivered := delivered + seen;
      assert Shot() == RxLink.Processed(was, n);
      AbsReads(Shot());
    }

    /** The resubmission loop of apply_batch and the counters after it. */
    method ResubmitAll(turns: seq<seq<KernelStep>>, ghost q: seq<nat>, ghost ps: seq<Payload>) returns (done: bool)
      requires Valid() && Ready(Abs(), q) && TurnsFit(turns, frameSize) && processed != [] && 0 < frameSize
      requires Addresses(AddressesOf(processed), |rxFrames|, Env(), mem.Length)
      requires q == Relatives(AddressesOf(processed), Env()) && Below(q, Abs().cfg.frames)
      modifies Own(), mem
      ensures Valid() && Front() == old(Front()) && (done ==> processed == [])
      ensures AppliedMatches(done, ps, Abs(), R.ResubmitAll(old(Abs()), q, ps, TurnsOf(turns)))
    {
      hide Valid;
      hide Abs;
      hide Ready;
      hide R.Refill;
      hide Addresses;
      hide Below;
      hide Relatives;
      done := Refill(processed, turns, q, q);
      if done {
        CountProcessed();
      }
    }

    method CountProcessed()
      requires Valid()
      modifies this`pktsDelivered, this`toFill, this`processed
      ensures Valid() && processed == []
      ensures Abs() == old(Abs()).(pktsDelivered := old(Abs()).pktsDelivered + |old(processed)|,
                                   toFill := old(Abs()).toFill + |old(processed)|)
    {
      hide Linked;
      hide AbsOf;
      CountStep(Shot(), |processed|);
      pktsDelivered := pktsDelivered + |processed|;
      toFill := toFill + |processed|;
      processed := [];
      ghost var n := |old(processed)|;
      assert Shot() == old(Shot()).(pktsDelivered := old(pktsDelivered) + n, toFill := old(toFill) + n);
    }

    /** recv_apply; seen is what the closure was given, in order. */
    method RecvApply(polled: bool, turns: seq<seq<KernelStep>>) returns (done: bool, seen: seq<Payload>)
      requires Quiet() && TurnsFit(turns, frameSize)
      modifies Own(), mem
      ensures Valid() && Front() == old(Front())
      ensures AppliedMatches(done, seen, Abs(), R.RecvApply(old(Abs()), polled, TurnsOf(turns)))
      ensures done ==> Quiet()
    {
      hide Linked;
      hide AbsOf;
      hide Ready;
      hide R.Available;
      hide R.Consume;
      hide R.Processed;
      hide R.ResubmitAll;
      hide R.PayloadsOf;
      hide R.FramesOf;
      hide Addresses;
      hide Below;
      RecvApplyReady(Abs(), polled, TurnsOf(turns));
      var n := PollAndConsume(polled);
      ConsumeStep(old(Shot()), n);
      done, seen := true, [];
      if n > 0 {
        ProcessedReady(old(Abs()), n);
        seen := Process(n, old(Shot()));
        done := ResubmitAll(turns, R.FramesOf(old(Abs()).rx[..n]), seen);
      }
    }
  }
}
