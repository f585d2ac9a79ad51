/** The transmit end as the object the source has, run against rings and memory. Every method is
    proved to do to the protocol state exactly what the function of the same name does. */
module XskTxs {
  import opened Sequences
  import opened PowerOfTwo
  import opened Frames
  import opened Umem
  import opened Rings
  import opened TxLink
  import opened TxReady
  import T = TxProtocol

  /** How a call ended, as its caller sees it. */
  datatype Ended = Accepted | NoFreeTxFrames | Panicked | StillSpinning

  /** The call ended as the protocol says, in the state the protocol says. */
  ghost predicate Matches(e: Ended, s: T.TxState, o: T.Outcome) {
    match o
    case Ok(s', _) => e == Accepted && s == s'
    case NoFreeTxFrames(s') => e == NoFreeTxFrames && s == s'
    case Panicked => e == Panicked
    case Spinning(s') => e == StillSpinning && s == s'
  }

  /** A closure given a slice of a frame leaves a slice of the same length and returns a length in it. */
  ghost predicate InPlace(f: Payload -> (Payload, nat), size: nat) {
    forall p :: |p| == size ==> |f(p).0| == size && f(p).1 <= size
  }

  lemma InPlaceAt(f: Payload -> (Payload, nat), size: nat, p: Payload)
    requires InPlace(f, size) && |p| == size
    ensures f(p).1 <= |f(p).0| == size && Packet(f, p) == f(p).0[..f(p).1]
  {
  }

  /** The packet that f makes of a region. */
  ghost function Packet(f: Payload -> (Payload, nat), region: Payload): (p: Payload) {
    var (data, len) := f(region);
    if len <= |data| then data[..len] else data
  }

  class XskTx {
    const txQ: Ring<Desc>
    const compQ: Ring<nat>
    const mem: array<Byte>
    const frameSize: nat
    const batchSize: nat
    const freeFrames: array<nat>
    var txFrames: seq<Frame>
    var outstanding: nat
    var cursor: nat
    var batched: nat
    var pktsTx: nat
    var pktsCompleted: nat
    ghost const mtu: nat
    ghost var accepted: seq<Payload>
    // The kernel's side: descriptors it has taken from the tx ring and not yet completed.
    var held: seq<Desc>
    ghost var sent: seq<Payload>

    /** What belongs to the transmit half alone. */
    ghost function Own(): set<object> {
      {this, txQ, txQ.slots, compQ, compQ.slots, freeFrames}
    }

    ghost function Repr(): set<object> { Own() + {mem} }

    /** The objects are distinct and the rings are in order. */
    ghost predicate Shaped()
      reads this, txQ, compQ
    {
      && txQ.Valid() && compQ.Valid()
      && txQ as object != compQ && compQ.slots != freeFrames
      && mem as object != txQ.slots && mem as object != compQ.slots && mem as object != freeFrames
      && txQ.slots as object != compQ.slots && txQ.slots as object != freeFrames
      && freeFrames.Length == |txFrames|
    }

    /** Everything the object holds, as a value. */
    ghost function Shot(): (v: TxView)
      requires Shaped()
      reads this, txQ, compQ, Repr()
    {
      TxView(TxEnv(frameSize, mtu, batchSize, txQ.size, compQ.size), txFrames, mem[..], cursor, batched,
             outstanding, pktsTx, pktsCompleted, txQ.Contents(), held, compQ.Contents(), accepted, sent)
    }

    ghost predicate Valid()
      reads Repr()
    {
      Shaped() && Linked(Shot())
    }

    /** The protocol state this object stands for. */
    ghost function Abs(): (s: T.TxState)
      requires Valid()
      reads Repr()
      ensures T.WellFormed(s)
    {
      AbsOf(Shot())
    }

    /** The part of memory behind the tx frames. */
    ghost function Beyond(): seq<Byte>
      reads this, mem
    {
      var end := Base(|txFrames|, frameSize);
      if end <= mem.Length then mem[end..] else []
    }

    /** The bytes of the frame at the cursor. */
    ghost function Region(): Payload
      reads this, mem
    {
      var addr := Base(cursor, frameSize);
      if addr + frameSize <= mem.Length then mem[addr..addr + frameSize] else []
    }

    /** What the code reads of its fields is what the protocol reads. */
    lemma Reads()
      requires Valid()
      ensures cursor < |txFrames| == |Abs().status| && Abs().cursor == cursor
      ensures Abs().status[cursor] == txFrames[cursor].status
      ensures Abs().cfg.mtu == mtu && Abs().cfg.batchSize == batchSize && Abs().cfg.frames == |txFrames|
      ensures Abs().batched == batched && Abs().outstanding == outstanding
    {
      hide Linked;
      hide AbsOf;
      AbsReads(Shot());
    }

    constructor (txQ: Ring<Desc>, compQ: Ring<nat>, mem: array<Byte>, frames: seq<Frame>,
                 frameSize: nat, batchSize: nat, ghost mtu: nat)
      requires txQ.Valid() && compQ.Valid() && txQ.Contents() == [] && compQ.Contents() == []
      requires txQ as object != compQ && txQ.slots as object != compQ.slots
      requires mem as object != txQ.slots && mem as object != compQ.slots
      requires Placed(frames, frameSize, mtu, mem.Length)
      requires forall i :: 0 <= i < |frames| ==> frames[i].status == Free
      ensures Valid() && fresh(freeFrames)
      ensures this.txQ == txQ && this.compQ == compQ && this.mem == mem && this.frameSize == frameSize
      ensures Abs() == T.Init(T.TxConfig(|frames|, batchSize, mtu, txQ.size, compQ.size), Contents(frames, mem[..]))
      ensures Ready(Abs())
    {
      this.txQ, this.compQ, this.mem := txQ, compQ, mem;
      this.frameSize, this.batchSize, this.mtu := frameSize, batchSize, mtu;
      freeFrames := new nat[|frames|];
      txFrames := frames;
      outstanding, cursor, batched, pktsTx, pktsCompleted := 0, 0, 0, 0, 0;
      held, accepted, sent := [], [], [];
      new;
      assert Statuses(frames) == seq(|frames|, _ => Free);
      InitReady(T.TxConfig(|frames|, batchSize, mtu, txQ.size, compQ.size), Contents(frames, mem[..]));
    }

    // ---------- kernel ----------

    method KernelTake()
      requires Valid()
      modifies txQ`cons, this`held
      ensures Valid() && Abs() == T.Kernel(old(Abs()), T.Take)
    {
      hide Linked;
      hide AbsOf;
      hide T.Kernel;
      TakeStep(Shot());
      if txQ.Count() > 0 {
        var d := txQ.Pop();
        held := held + [d];
      }
      assert Shot() == Taken(old(Shot()));
    }

    method KernelComplete(i: nat)
      requires Valid()
      modifies compQ`prod, compQ.slots, this`held, this`sent
      ensures Valid() && Abs() == T.Kernel(old(Abs()), T.Complete(i)) && mem[..] == old(mem[..])
    {
      hide Linked;
      hide AbsOf;
      hide T.Kernel;
      CompleteStep(Shot(), i);
      if i < |held| && compQ.Count() < compQ.size {
        HeldReads(Shot(), i);
        var d := held[i];
        sent := sent + [Bytes(mem[..], d.addr, d.len)];
        var n := compQ.Produce([d.addr]);
        held := Without(held, i);
      }
      assert Shot() == Completed(old(Shot()), i);
    }

    method KernelTurn(turn: T.Turn)
      requires Valid()
      modifies txQ`cons, compQ`prod, compQ.slots, this`held, this`sent
      ensures Valid() && Abs() == T.Run(old(Abs()), turn) && mem[..] == old(mem[..])
    {
      hide Valid;
      hide Abs;
      assert turn[0..] == turn;
      for k := 0 to |turn|
        invariant Valid() && mem[..] == old(mem[..])
        invariant T.Run(Abs(), turn[k..]) == T.Run(old(Abs()), turn)
      {
        T.RunFirst(Abs(), turn[k], turn[k + 1..]);
        assert turn[k..] == [turn[k]] + turn[k + 1..];
        match turn[k] {
          case Take => KernelTake();
          case Complete(i) => KernelComplete(i);
        }
      }
      assert turn[|turn|..] == [];
    }

    // ---------- complete_frames ----------

    method CompleteFrames()
      requires Valid() && Ready(Abs())
      modifies compQ`cons, freeFrames, this`txFrames, this`outstanding, this`pktsCompleted
      ensures Valid() && Abs() == T.Harvest(old(Abs()))
      ensures |txFrames| == old(|txFrames|) && mem[..] == old(mem[..]) && Region() == old(Region())
    {
      hide Linked;
      hide AbsOf;
      hide Ready;
      hide T.Harvest;
      hide Bases;
      hide Freed;
      hide Ring.Valid;
      hide Ring.Contents;
      hide Base;
      HarvestStep(Shot());
      AbsReads(Shot());
      CompletionsFit(Abs());
      var n := compQ.Consume(outstanding, freeFrames);
      outstanding := outstanding - n;
      pktsCompleted := pktsCompleted + n;
      HarvestedAddresses(old(Shot()), n);
      UpdateTxFrames(n);
      assert Shot() == Harvested(old(Shot()));
    }

    method UpdateTxFrames(n: nat)
      requires n <= freeFrames.Length && 0 < frameSize < TWO32
      requires 0 < |txFrames| && Base(|txFrames| - 1, frameSize) < TWO32
      requires Bases(freeFrames[..n], |txFrames|, frameSize)
      modifies this`txFrames
      ensures txFrames == Freed(old(txFrames), freeFrames[..n], frameSize)
    {
      hide Base;
      hide Chunk;
      ghost var addrs := freeFrames[..n];
      for k := 0 to n
        invariant Bases(addrs[..k], |old(txFrames)|, frameSize)
        invariant txFrames == Freed(old(txFrames), addrs[..k], frameSize)
      {
        assert addrs[..k + 1][..k] == addrs[..k] && addrs[k] == freeFrames[k];
        RecoverIndex(freeFrames[k], |txFrames|, frameSize);
        var i := TxIndex(freeFrames[k], frameSize);
        txFrames := txFrames[i := txFrames[i].(status := Free)];
      }
      assert addrs[..n] == addrs;
    }

    // ---------- put_batch_on_tx_queue ----------

    /** The slice of tx_frames that the batch is in. */
    ghost predicate IsSlice(start: nat, end: nat)
      reads this
    {
      && end == (if cursor == 0 then |txFrames| else cursor)
      && start + batched == end <= |txFrames|
    }

    method MarkBatch(start: nat, end: nat)
      requires Valid() && T.Contiguous(Abs()) && IsSlice(start, end)
      modifies this`txFrames
      ensures Valid() && Abs() == T.Mark(old(Abs())) && T.Contiguous(Abs())
      ensures |txFrames| == old(|txFrames|)
    {
      hide Linked;
      hide AbsOf;
      AbsReads(Shot());
      MarkStep(Shot(), start, end);
      for i := start to end
        invariant txFrames == MarkedRange(old(txFrames), start, i)
      {
        txFrames := txFrames[i := txFrames[i].(status := OnTxQueue)];
      }
      assert Shot() == old(Shot()).(frames := MarkedRange(old(txFrames), start, end));
    }

    /** One attempt to put the batch on the tx ring. */
    method TrySubmit(start: nat, end: nat) returns (done: bool)
      requires Valid() && T.Contiguous(Abs()) && IsSlice(start, end) && 0 < batched
      modifies txQ`prod, txQ.slots, this`pktsTx, this`outstanding, this`batched
      ensures Valid() && done == T.HasRoom(old(Abs()))
      ensures Abs() == if done then T.Enqueue(old(Abs())) else old(Abs())
      ensures !done ==> batched == old(batched)
      ensures mem[..] == old(mem[..])
    {
      hide Linked;
      hide AbsOf;
      hide T.Enqueue;
      AbsReads(Shot());
      EnqueueStep(Shot(), start, end);
      var n := txQ.Produce(DescsOf(txFrames[start..end]));
      done := n == batched;
      if done {
        pktsTx, outstanding, batched := pktsTx + batched, outstanding + batched, 0;
        assert Shot() == Enqueued(old(Shot()), DescsOf(txFrames[start..end]));
      } else {
        assert Shot() == old(Shot());
      }
    }

    /** The submission loop; used counts the kernel turns it took. */
    method Submit(start: nat, end: nat, turns: seq<T.Turn>) returns (e: Ended, used: nat)
      requires Valid() && T.Contiguous(Abs()) && IsSlice(start, end) && 0 < batched
      modifies this, txQ, txQ.slots, compQ, compQ.slots
      ensures Valid() && used <= |turns|
      ensures Matches(e, Abs(), T.Submit(old(Abs()), turns))
      ensures e.Accepted? ==> T.Submit(old(Abs()), turns).rest == turns[used..]
      ensures txFrames == old(txFrames) && mem[..] == old(mem[..])
    {
      hide Valid;
      hide Abs;
      hide T.Submit;
      hide T.Run;
      hide T.HasRoom;
      hide T.Enqueue;
      used := 0;
      assert turns[0..] == turns;
      while used < |turns|
        invariant used <= |turns| && Valid() && IsSlice(start, end) && 0 < batched
        invariant txFrames == old(txFrames) && mem[..] == old(mem[..])
        invariant T.Contiguous(Abs()) && T.Submit(Abs(), turns[used..]) == T.Submit(old(Abs()), turns)
      {
        T.SubmitFirst(Abs(), turns, used);
        KernelTurn(turns[used]);
        used := used + 1;
        var done := TrySubmit(start, end);
        if done {
          return Accepted, used;
        }
      }
      T.SubmitLast(Abs(), turns);
      e := StillSpinning;
    }

    method PutBatch(turns: seq<T.Turn>) returns (e: Ended, used: nat)
      requires Valid()
      modifies this, txQ, txQ.slots, compQ, compQ.slots
      ensures Valid() && used <= |turns|
      ensures Matches(e, Abs(), T.PutBatch(old(Abs()), turns))
      ensures e.Accepted? ==> T.PutBatch(old(Abs()), turns).rest == turns[used..]
      ensures e.Panicked? ==> Abs() == old(Abs())
      ensures |txFrames| == old(|txFrames|) && mem[..] == old(mem[..])
    {
      hide Linked;
      hide AbsOf;
      hide T.Mark;
      hide T.Submit;
      AbsReads(Shot());
      if batched == 0 {
        assert turns[0..] == turns;
        return Accepted, 0;
      }
      var end := if cursor == 0 then |txFrames| else cursor;
      if batched > end {
        return Panicked, 0;
      }
      var start := end - batched;
      MarkBatch(start, end);
      e, used := Submit(start, end, turns);
    }

    // ---------- send, send_apply, drain ----------

    /** Move past the frame at the cursor, whose bytes and length have just been written. */
    method Advance(ghost was: TxView, ghost data: Payload, len: nat)
      requires Shaped() && Linked(was) && Ready(AbsOf(was)) && AbsOf(was).status[was.cursor] == Free
      requires len <= |data| <= was.env.size
      requires Base(was.cursor, was.env.size) + |data| <= |was.mem|
      requires Shot() == was.(mem := Written(was.mem, Base(was.cursor, was.env.size), data))
      modifies this`txFrames, this`cursor, this`batched, this`accepted
      ensures Valid() && Abs() == T.Store(AbsOf(was), data[..len]) && Ready(Abs())
      ensures |txFrames| == old(|txFrames|)
      ensures Beyond() == was.mem[Base(|was.frames|, was.env.size)..]
    {
      hide Linked;
      hide AbsOf;
      hide Ready;
      hide T.Store;
      hide Base;
      AbsReads(was);
      StoreReady(AbsOf(was), data[..len]);
      StoreStep(was, data, len);
      WrapIsRemainder(cursor + 1, |txFrames|);
      txFrames := txFrames[cursor := txFrames[cursor].(len := len)];
      cursor := (cursor + 1) % |txFrames|;
      batched := batched + 1;
      accepted := accepted + [data[..len]];
      assert Shot() == Stored(was, data, len);
    }

    /** What send and send_apply do once the frame is written. */
    method Finish(turns: seq<T.Turn>) returns (e: Ended)
      requires Valid() && Ready(Abs())
      modifies this, txQ, txQ.slots, compQ, compQ.slots
      ensures Valid() && |txFrames| == old(|txFrames|) && mem[..] == old(mem[..])
      ensures Matches(e, Abs(), if old(Abs()).batched == old(Abs()).cfg.batchSize
                                then T.PutBatch(old(Abs()), turns) else T.Ok(old(Abs()), turns))
      ensures e.Accepted? ==> Ready(Abs())
      ensures e.Panicked? ==> Abs() == old(Abs())
    {
      hide Valid;
      hide Abs;
      hide Ready;
      hide T.PutBatch;
      Reads();
      e := Accepted;
      if batched == batchSize {
        PutBatchReady(Abs(), turns);
        var used;
        e, used := PutBatch(turns);
      }
    }

    /** Write the data to the frame at the cursor with a checked write; false is the panic. */
    method Place(data: Payload) returns (ok: bool)
      requires Valid() && Ready(Abs()) && txFrames[cursor].status == Free
      modifies mem, this`txFrames, this`cursor, this`batched, this`accepted
      ensures Valid() && ok == (|data| <= mtu)
      ensures ok ==> Abs() == T.Store(old(Abs()), data) && Ready(Abs())
      ensures !ok ==> Abs() == old(Abs())
      ensures |txFrames| == old(|txFrames|) && Beyond() == old(Beyond())
    {
      hide Linked;
      hide AbsOf;
      hide Ready;
      hide T.Store;
      hide Base;
      hide Bytes;
      AbsReads(Shot());
      var r := WriteChecked(txFrames[cursor], mem, data);
      ok := r.Ok?;
      if ok {
        assert data[..|data|] == data;
        Advance(old(Shot()), data, r.value.len);
      } else {
        assert Shot() == old(Shot());
      }
    }

    method Send(data: Payload, turns: seq<T.Turn>) returns (e: Ended)
      requires Valid() && Ready(Abs())
      modifies Own(), mem
      ensures Valid() && |txFrames| == old(|txFrames|)
      ensures Matches(e, Abs(), T.Send(old(Abs()), data, true, turns))
      ensures e.Panicked? ==> Abs() == T.StoppedAt(old(Abs()), data, true)
      ensures e.Accepted? || e.NoFreeTxFrames? ==> Ready(Abs())
      ensures Beyond() == old(Beyond())
    {
      hide Valid;
      hide Abs;
      hide Ready;
      hide T.PutBatch;
      hide T.Harvest;
      hide T.Store;
      hide Base;
      HarvestReady(Abs());
      CompleteFrames();
      Reads();
      if txFrames[cursor].status != Free {
        return NoFreeTxFrames;
      }
      var ok := Place(data);
      if !ok {
        return Panicked;
      }
      e := Finish(turns);
    }

    /** Let f write the frame at the cursor in place and say how long the packet is. */
    method Apply(f: Payload -> (Payload, nat))
      requires Valid() && Ready(Abs()) && txFrames[cursor].status == Free && InPlace(f, frameSize)
      modifies mem, this`txFrames, this`cursor, this`batched, this`accepted
      ensures Valid() && Abs() == T.Store(old(Abs()), Packet(f, old(Region()))) && Ready(Abs())
      ensures |txFrames| == old(|txFrames|) && Beyond() == old(Beyond())
    {
      hide Linked;
      hide AbsOf;
      hide Ready;
      hide T.Store;
      hide Base;
      hide InPlace;
      hide Packet;
      AbsReads(Shot());
      var addr := txFrames[cursor].addr;
      var region := mem[addr..addr + frameSize];
      InPlaceAt(f, frameSize, region);
      var (data, len) := f(region);
      CopyIn(mem, addr, data);
      Advance(old(Shot()), data, len);
    }

    method SendApply(f: Payload -> (Payload, nat), turns: seq<T.Turn>) returns (e: Ended)
      requires Valid() && Ready(Abs()) && InPlace(f, frameSize)
      modifies Own(), mem
      ensures Valid() && |txFrames| == old(|txFrames|)
      ensures Matches(e, Abs(), T.Send(old(Abs()), Packet(f, old(Region())), false, turns))
      ensures e.Panicked? ==> Abs() == T.StoppedAt(old(Abs()), Packet(f, old(Region())), false)
      ensures e.Accepted? || e.NoFreeTxFrames? ==> Ready(Abs())
      ensures Beyond() == old(Beyond())
    {
      hide Valid;
      hide Abs;
      hide Ready;
      hide T.PutBatch;
      hide T.Harvest;
      hide T.Store;
      hide Base;
      hide InPlace;
      hide Packet;
      hide Region;
      HarvestReady(Abs());
      CompleteFrames();
      Reads();
      if txFrames[cursor].status != Free {
        return NoFreeTxFrames;
      }
      Apply(f);
      e := Finish(turns);
    }

    method Drain(turns: seq<T.Turn>) returns (e: Ended)
      requires Valid() && Ready(Abs())
      modifies Own()
      ensures Valid() && |txFrames| == old(|txFrames|) && mem[..] == old(mem[..])
      ensures Matches(e, Abs(), T.Drain(old(Abs()), turns))
      ensures e.Accepted? ==> Ready(Abs())
      ensures e.Panicked? ==> Abs() == T.Harvest(old(Abs()))
    {
      hide Valid;
      hide Abs;
      hide Ready;
      hide T.PutBatch;
      hide T.Harvest;
      hide T.Drain;
      hide T.Run;
      var used := 0;
      assert turns[0..] == turns;
      while true
        invariant used <= |turns| && Valid() && Ready(Abs())
        invariant |txFrames| == old(|txFrames|) && mem[..] == old(mem[..])
        invariant T.Drain(Abs(), turns[used..]) == T.Drain(old(Abs()), turns)
        invariant Abs() == old(Abs()) || Abs().batched == 0
        decreases |turns| - used
      {
        T.DrainFirst(Abs(), turns[used..]);
        if T.PutBatch(T.Harvest(Abs()), turns[used..]).Panicked? { T.NoBatchNoPanic(Abs(), turns[used..]); }
        HarvestReady(Abs());
        CompleteFrames();
        PutBatchReady(Abs(), turns[used..]);
        var more;
        e, more := PutBatch(turns[used..]);
        assert turns[used..][more..] == turns[used + more..];
        used := used + more;
        Reads();
        if e != Accepted || outstanding == 0 {
          return;
        }
        if used == |turns| {
          return StillSpinning;
        }
        RunReady(Abs(), turns[used]);
        KernelTurn(turns[used]);
        used := used + 1;
      }
    }
  }
}
