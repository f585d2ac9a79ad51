/** How the concrete transmit state (frame records, bytes, descriptors and addresses on the rings)
    stands for a state of the protocol over frame indices. */
module TxLink {
  import opened Arithmetic
  import opened Sequences
  import opened PowerOfTwo
  import opened Frames
  import opened Umem
  import T = TxProtocol

  function Statuses(frames: seq<Frame>): (r: seq<FrameStatus>)
    ensures |r| == |frames|
    ensures forall i {:trigger r[i]} {:trigger frames[i]} :: 0 <= i < |frames| ==> r[i] == frames[i].status
  {
    if frames == [] then [] else Statuses(frames[..|frames| - 1]) + [frames[|frames| - 1].status]
  }

  /** Frame i lies in chunk i. */
  ghost predicate PlacedAt(f: Frame, i: nat, size: nat, mtu: nat, memLen: nat) {
    f.addr == Base(i, size) && f.len <= size && f.mtu == mtu && Base(i, size) + size <= memLen
  }

  /** All frames lie in memory, frame i in chunk i. */
  ghost predicate Placed(frames: seq<Frame>, size: nat, mtu: nat, memLen: nat) {
    && 0 < size < TWO32 && 0 < |frames|
    && Base(|frames| - 1, size) < TWO32 && Base(|frames|, size) <= memLen
    && mtu <= size
    && forall i {:trigger frames[i]} :: 0 <= i < |frames| ==> PlacedAt(frames[i], i, size, mtu, memLen)
  }

  function Contents(frames: seq<Frame>, mem: seq<Byte>): (r: seq<Payload>)
    requires forall i {:trigger frames[i]} :: 0 <= i < |frames| ==> frames[i].addr + frames[i].len <= |mem|
    ensures |r| == |frames|
    ensures forall i {:trigger r[i]} {:trigger frames[i]} :: 0 <= i < |frames| ==>
              r[i] == Bytes(mem, frames[i].addr, frames[i].len)
  {
    if frames == [] then [] else
      var last := |frames| - 1;
      Contents(frames[..last], mem) + [Bytes(mem, frames[last].addr, frames[last].len)]
  }

  /** The descriptor TxQueue::produce writes for a frame. */
  function DescOf(f: Frame): Desc { Desc(f.addr, f.len % TWO32, f.options) }

  function Indices(q: seq<Desc>, size: nat): (r: seq<nat>)
    requires size > 0
    ensures |r| == |q|
    ensures forall k {:trigger r[k]} {:trigger q[k]} :: 0 <= k < |q| ==> r[k] == Chunk(q[k].addr, size)
  {
    if q == [] then [] else Indices(q[..|q| - 1], size) + [Chunk(q[|q| - 1].addr, size)]
  }

  function AddrIndices(q: seq<nat>, size: nat): (r: seq<nat>)
    requires size > 0
    ensures |r| == |q|
    ensures forall k {:trigger r[k]} {:trigger q[k]} :: 0 <= k < |q| ==> r[k] == Chunk(q[k], size)
  {
    if q == [] then [] else AddrIndices(q[..|q| - 1], size) + [Chunk(q[|q| - 1], size)]
  }

  /** The descriptor is the one its frame would be submitted with now. */
  ghost predicate IsCurrent(d: Desc, frames: seq<Frame>, size: nat)
    requires size > 0
  {
    Chunk(d.addr, size) < |frames| && d == DescOf(frames[Chunk(d.addr, size)])
  }

  ghost predicate Current(q: seq<Desc>, frames: seq<Frame>, size: nat)
    requires size > 0
  {
    forall k {:trigger q[k]} :: 0 <= k < |q| ==> IsCurrent(q[k], frames, size)
  }

  /** The address is that of a tx frame. */
  ghost predicate IsBase(a: nat, count: nat, size: nat)
    requires size > 0
  {
    Chunk(a, size) < count && a == Base(Chunk(a, size), size)
  }

  ghost predicate Bases(q: seq<nat>, count: nat, size: nat)
    requires size > 0
  {
    forall k {:trigger q[k]} :: 0 <= k < |q| ==> IsBase(q[k], count, size)
  }

  /** The code's recovery of the index from a completion address. */
  lemma RecoverIndex(a: nat, count: nat, size: nat)
    requires 0 < size < TWO32 && 0 < count && Base(count - 1, size) < TWO32 && IsBase(a, count, size)
    ensures TxIndex(a, size) == Chunk(a, size)
  {
    var i := Chunk(a, size);
    if i < count - 1 { ChunksApart(i, count - 1, size); }
    TruncatedQuotient(i, 0, size);
  }

  lemma IndicesSum(a: seq<Desc>, b: seq<Desc>, size: nat)
    requires size > 0
    ensures Indices(a + b, size) == Indices(a, size) + Indices(b, size)
  {
  }

  lemma IndicesWithout(q: seq<Desc>, i: nat, size: nat)
    requires size > 0 && i < |q|
    ensures Indices(Without(q, i), size) == Without(Indices(q, size), i)
  {
  }

  lemma AddrIndicesParts(q: seq<nat>, k: nat, size: nat)
    requires size > 0 && k <= |q|
    ensures AddrIndices(q[k..], size) == AddrIndices(q, size)[k..]
    ensures AddrIndices(q[..k], size) == AddrIndices(q, size)[..k]
  {
  }

  lemma AddrIndicesSum(a: seq<nat>, b: seq<nat>, size: nat)
    requires size > 0
    ensures AddrIndices(a + b, size) == AddrIndices(a, size) + AddrIndices(b, size)
  {
  }

  /** The bytes the kernel reads through a current descriptor are its frame's content. */
  lemma DescReadsContent(d: Desc, frames: seq<Frame>, size: nat, mtu: nat, mem: seq<Byte>)
    requires 0 < size && Placed(frames, size, mtu, |mem|) && IsCurrent(d, frames, size)
    ensures d.addr + d.len <= |mem| && Bytes(mem, d.addr, d.len) == Contents(frames, mem)[Chunk(d.addr, size)]
    ensures IsBase(d.addr, |frames|, size)
  {
    hide Base;
    hide Chunk;
    var f := frames[Chunk(d.addr, size)];
    RemainderIsUnique(0, f.len, TWO32);
  }

  lemma FrameDesc(frames: seq<Frame>, size: nat, mtu: nat, memLen: nat, i: nat)
    requires 0 < size && Placed(frames, size, mtu, memLen) && i < |frames|
    ensures Chunk(DescOf(frames[i]).addr, size) == i && IsCurrent(DescOf(frames[i]), frames, size)
  {
    hide Chunk;
    hide Base;
    assert PlacedAt(frames[i], i, size, mtu, memLen);
    ChunkOfBase(i, 0, size);
  }

  /** Submitting a slice of tx_frames puts on the ring the indices of the slice. */
  lemma SliceDescs(frames: seq<Frame>, size: nat, mtu: nat, memLen: nat, lo: nat, hi: nat, q: seq<Desc>)
    requires 0 < size && Placed(frames, size, mtu, memLen) && lo <= hi <= |frames|
    requires |q| == hi - lo && forall k {:trigger q[k]} :: 0 <= k < |q| ==> q[k] == DescOf(frames[lo + k])
    ensures Indices(q, size) == Interval(lo, hi) && Current(q, frames, size)
  {
    hide Chunk;
    hide Placed;
    hide DescOf;
    hide IsCurrent;
    hide Indices;
    hide Interval;
    forall k: nat | k < |q| ensures Chunk(q[k].addr, size) == lo + k && IsCurrent(q[k], frames, size) {
      FrameDesc(frames, size, mtu, memLen, lo + k);
    }
  }

  /** Changing only the status of frames leaves content, places and descriptors as they were. */
  ghost predicate StatusesDiffer(frames: seq<Frame>, frames': seq<Frame>) {
    && |frames'| == |frames|
    && forall i {:trigger frames'[i]} :: 0 <= i < |frames| ==> frames'[i] == frames[i].(status := frames'[i].status)
  }

  lemma StatusOnly(frames: seq<Frame>, frames': seq<Frame>, size: nat, mtu: nat, mem: seq<Byte>)
    requires Placed(frames, size, mtu, |mem|) && StatusesDiffer(frames, frames')
    ensures Placed(frames', size, mtu, |mem|)
    ensures Contents(frames', mem) == Contents(frames, mem)
  {
    hide Base;
  }

  lemma StatusOnlyCurrent(frames: seq<Frame>, frames': seq<Frame>, size: nat, q: seq<Desc>)
    requires size > 0 && StatusesDiffer(frames, frames') && Current(q, frames, size)
    ensures Current(q, frames', size)
  {
    hide Chunk;
  }

  lemma OtherContentKept(frames: seq<Frame>, size: nat, mtu: nat, mem: seq<Byte>, c: nat, data: Payload, i: nat)
    requires Placed(frames, size, mtu, |mem|) && c < |frames| && i < |frames| && i != c && |data| <= size
    ensures Base(c, size) + |data| <= |mem| && frames[i].addr + frames[i].len <= |mem|
    ensures Bytes(Written(mem, Base(c, size), data), frames[i].addr, frames[i].len)
            == Bytes(mem, frames[i].addr, frames[i].len)
  {
    hide Base;
    assert PlacedAt(frames[i], i, size, mtu, |mem|) && PlacedAt(frames[c], c, size, mtu, |mem|);
    DifferentChunks(mem, size, c, 0, data, i, frames[i].addr, frames[i].len);
    assert Base(c, size) + 0 == Base(c, size);
  }

  /** Writing a frame changes only that frame's content, and no byte past the tx frames. */
  lemma WriteFrame(frames: seq<Frame>, size: nat, mtu: nat, mem: seq<Byte>, c: nat, data: Payload, len: nat)
    requires Placed(frames, size, mtu, |mem|) && c < |frames| && len <= |data| <= size
    ensures Base(c, size) + |data| <= |mem|
    ensures var frames' := frames[c := frames[c].(len := len)];
            var mem' := Written(mem, Base(c, size), data);
            && Placed(frames', size, mtu, |mem'|)
            && Contents(frames', mem') == Contents(frames, mem)[c := data[..len]]
            && Statuses(frames') == Statuses(frames)
            && mem'[Base(|frames|, size)..] == mem[Base(|frames|, size)..]
  {
    hide Base;
    assert PlacedAt(frames[c], c, size, mtu, |mem|);
    var frames' := frames[c := frames[c].(len := len)];
    var mem' := Written(mem, Base(c, size), data);
    forall i: nat | i < |frames| && i != c
      ensures Contents(frames', mem')[i] == Contents(frames, mem)[i]
    {
      OtherContentKept(frames, size, mtu, mem, c, data, i);
    }
    assert Bytes(mem', Base(c, size), len) == data[..len];
    BasesApart(c, |frames|, size);
  }

  lemma StillCurrent(q: seq<Desc>, frames: seq<Frame>, size: nat, c: nat, f: Frame)
    requires size > 0 && Current(q, frames, size) && c < |frames| && c !in Indices(q, size)
    ensures Current(q, frames[c := f], size)
  {
    hide Chunk;
    forall k | 0 <= k < |q| ensures Chunk(q[k].addr, size) != c {
      assert Indices(q, size)[k] == Chunk(q[k].addr, size);
    }
  }

  // ---------- kernel steps on descriptors ----------

  lemma TakeLink(ring: seq<Desc>, held: seq<Desc>, frames: seq<Frame>, size: nat)
    requires size > 0 && ring != [] && Current(ring, frames, size) && Current(held, frames, size)
    ensures Current(ring[1..], frames, size) && Current(held + [ring[0]], frames, size)
    ensures Indices(ring[1..], size) == Indices(ring, size)[1..]
    ensures Indices(held + [ring[0]], size) == Indices(held, size) + [Indices(ring, size)[0]]
  {
  }

  lemma CurrentWithout(q: seq<Desc>, frames: seq<Frame>, size: nat, i: nat)
    requires 0 < size && Current(q, frames, size) && i < |q|
    ensures Current(Without(q, i), frames, size)
  {
    hide IsCurrent;
  }

  lemma CompleteLink(held: seq<Desc>, comp: seq<nat>, frames: seq<Frame>, size: nat, i: nat)
    requires 0 < size && i < |held|
    requires Current(held, frames, size) && Bases(comp, |frames|, size) && IsBase(held[i].addr, |frames|, size)
    ensures Current(Without(held, i), frames, size) && Bases(comp + [held[i].addr], |frames|, size)
    ensures Indices(Without(held, i), size) == Without(Indices(held, size), i)
    ensures AddrIndices(comp + [held[i].addr], size) == AddrIndices(comp, size) + [Indices(held, size)[i]]
  {
    hide Chunk;
    hide Current;
    hide IsBase;
    hide Without;
    hide Indices;
    hide AddrIndices;
    CurrentWithout(held, frames, size, i);
    IndicesWithout(held, i, size);
    AddrIndicesSum(comp, [held[i].addr], size);
  }

  // ---------- the whole concrete state as a value ----------

  datatype TxEnv = TxEnv(size: nat, mtu: nat, batchSize: nat, txRingSize: nat, compRingSize: nat)

  datatype TxView = TxView(
    env: TxEnv, frames: seq<Frame>, mem: seq<Byte>, cursor: nat, batched: nat, outstanding: nat,
    pktsTx: nat, pktsCompleted: nat, ring: seq<Desc>, held: seq<Desc>, comp: seq<nat>,
    accepted: seq<Payload>, sent: seq<Payload>)

  /** Every descriptor and address on the kernel's side names a frame of this view. */
  ghost predicate Linked(v: TxView) {
    && 0 < v.env.size && v.cursor < |v.frames|
    && Placed(v.frames, v.env.size, v.env.mtu, |v.mem|)
    && Current(v.ring, v.frames, v.env.size) && Current(v.held, v.frames, v.env.size)
    && Bases(v.comp, |v.frames|, v.env.size)
  }

  /** The protocol state a view stands for. */
  ghost function AbsOf(v: TxView): (s: T.TxState)
    requires Linked(v)
    ensures T.WellFormed(s)
  {
    T.TxState(T.TxConfig(|v.frames|, v.env.batchSize, v.env.mtu, v.env.txRingSize, v.env.compRingSize),
              Statuses(v.frames), Contents(v.frames, v.mem), v.cursor, v.batched, v.outstanding,
              v.pktsTx, v.pktsCompleted, Indices(v.ring, v.env.size), Indices(v.held, v.env.size),
              AddrIndices(v.comp, v.env.size), v.accepted, v.sent)
  }

  /** What the user side reads of the state is what the protocol reads. */
  lemma AbsReads(v: TxView)
    requires Linked(v)
    ensures v.cursor < |v.frames| == AbsOf(v).cfg.frames == |AbsOf(v).status| && 0 < v.env.size < TWO32
    ensures AbsOf(v).status[v.cursor] == v.frames[v.cursor].status
    ensures AbsOf(v).cursor == v.cursor && AbsOf(v).batched == v.batched && AbsOf(v).outstanding == v.outstanding
    ensures |AbsOf(v).ring| == |v.ring| && |AbsOf(v).comp| == |v.comp|
    ensures AbsOf(v).cfg == T.TxConfig(|v.frames|, v.env.batchSize, v.env.mtu, v.env.txRingSize, v.env.compRingSize)
    ensures v.frames[v.cursor].addr == Base(v.cursor, v.env.size)
    ensures v.frames[v.cursor].mtu == v.env.mtu <= v.env.size
    ensures Base(v.cursor, v.env.size) + v.env.size <= |v.mem| && Base(|v.frames|, v.env.size) <= |v.mem|
  {
    hide Base;
    assert PlacedAt(v.frames[v.cursor], v.cursor, v.env.size, v.env.mtu, |v.mem|);
  }

  ghost function Taken(v: TxView): TxView {
    if v.ring == [] then v else v.(ring := v.ring[1..], held := v.held + [v.ring[0]])
  }

  lemma TakeStep(v: TxView)
    requires Linked(v)
    ensures Linked(Taken(v)) && AbsOf(Taken(v)) == T.Kernel(AbsOf(v), T.Take)
  {
    hide Current;
    hide Bases;
    hide Placed;
    if v.ring != [] { TakeLink(v.ring, v.held, v.frames, v.env.size); }
  }

  ghost function Completed(v: TxView, i: nat): TxView
    requires Linked(v)
  {
    if i < |v.held| && |v.comp| < v.env.compRingSize then
      var d := v.held[i];
      DescReadsContent(d, v.frames, v.env.size, v.env.mtu, v.mem);
      v.(held := Without(v.held, i), comp := v.comp + [d.addr], sent := v.sent + [Bytes(v.mem, d.addr, d.len)])
    else v
  }

  lemma HeldIsCurrent(v: TxView, i: nat)
    requires Linked(v) && i < |v.held|
    ensures IsCurrent(v.held[i], v.frames, v.env.size)
  {
  }

  lemma HeldReads(v: TxView, i: nat)
    requires Linked(v) && i < |v.held|
    ensures v.held[i].addr + v.held[i].len <= |v.mem|
  {
    DescReadsContent(v.held[i], v.frames, v.env.size, v.env.mtu, v.mem);
  }

  lemma CompleteStep(v: TxView, i: nat)
    requires Linked(v)
    ensures Linked(Completed(v, i)) && AbsOf(Completed(v, i)) == T.Kernel(AbsOf(v), T.Complete(i))
  {
    hide Current;
    hide Bases;
    hide Placed;
    hide Without;
    hide IsCurrent;
    hide Statuses;
    hide Contents;
    if i < |v.held| && |v.comp| < v.env.compRingSize {
      HeldIsCurrent(v, i);
      DescReadsContent(v.held[i], v.frames, v.env.size, v.env.mtu, v.mem);
      CompleteLink(v.held, v.comp, v.frames, v.env.size, i);
    }
  }

  // ---------- harvesting ----------

  /** The frames the addresses name, set Free one after the other. */
  function Freed(frames: seq<Frame>, addrs: seq<nat>, size: nat): (r: seq<Frame>)
    requires size > 0 && Bases(addrs, |frames|, size)
    ensures |r| == |frames|
  {
    if addrs == [] then frames else
      var last := |addrs| - 1;
      var r := Freed(frames, addrs[..last], size);
      var i := Chunk(addrs[last], size);
      r[i := r[i].(status := Free)]
  }

  lemma {:induction false} FreedStatuses(frames: seq<Frame>, addrs: seq<nat>, size: nat)
    requires size > 0 && Bases(addrs, |frames|, size)
    ensures StatusesDiffer(frames, Freed(frames, addrs, size))
    ensures Below(AddrIndices(addrs, size), |frames|)
    ensures Statuses(Freed(frames, addrs, size)) == SetAll(Statuses(frames), AddrIndices(addrs, size), Free)
  {
    hide Chunk;
    hide Base;
    hide Statuses;
    hide AddrIndices;
    hide StatusesDiffer;
    IndicesBelow(addrs, |frames|, size);
    if addrs == [] {
      SameStatuses(frames);
    } else {
      var last := |addrs| - 1;
      FreedStatuses(frames, addrs[..last], size);
      AddrIndicesParts(addrs, last, size);
      FreedOne(frames, Freed(frames, addrs[..last], size), Chunk(addrs[last], size));
    }
  }

  lemma IndicesBelow(addrs: seq<nat>, n: nat, size: nat)
    requires size > 0 && Bases(addrs, n, size)
    ensures Below(AddrIndices(addrs, size), n)
  {
    hide Chunk;
    hide Base;
    hide AddrIndices;
  }

  lemma SameStatuses(frames: seq<Frame>)
    ensures StatusesDiffer(frames, frames)
  {
  }

  lemma FreedOne(was: seq<Frame>, frames: seq<Frame>, i: nat)
    requires StatusesDiffer(was, frames) && i < |frames|
    ensures StatusesDiffer(was, frames[i := frames[i].(status := Free)])
    ensures Statuses(frames[i := frames[i].(status := Free)]) == Statuses(frames)[i := Free]
  {
    hide Statuses;
  }

  ghost function Harvested(v: TxView): TxView
    requires Linked(v)
  {
    var k := Min(|v.comp|, v.outstanding);
    v.(comp := v.comp[k..], outstanding := v.outstanding - k, pktsCompleted := v.pktsCompleted + k,
       frames := Freed(v.frames, v.comp[..k], v.env.size))
  }

  lemma HarvestedAddresses(v: TxView, n: nat)
    requires Linked(v) && n == Min(v.outstanding, |v.comp|)
    ensures 0 < v.env.size < TWO32 && 0 < |v.frames| && Base(|v.frames| - 1, v.env.size) < TWO32
    ensures Bases(v.comp[..n], |v.frames|, v.env.size)
  {
    hide Base;
    hide IsBase;
  }

  lemma HarvestStep(v: TxView)
    requires Linked(v)
    ensures Linked(Harvested(v)) && AbsOf(Harvested(v)) == T.Harvest(AbsOf(v))
  {
    hide Current;
    hide Placed;
    hide Freed;
    hide IsBase;
    hide Indices;
    hide AddrIndices;
    hide SetAll;
    hide Statuses;
    hide Contents;
    hide StatusesDiffer;
    var k := Min(|v.comp|, v.outstanding);
    var frames' := Freed(v.frames, v.comp[..k], v.env.size);
    FreedStatuses(v.frames, v.comp[..k], v.env.size);
    StatusOnly(v.frames, frames', v.env.size, v.env.mtu, v.mem);
    StatusOnlyCurrent(v.frames, frames', v.env.size, v.ring);
    StatusOnlyCurrent(v.frames, frames', v.env.size, v.held);
    AddrIndicesParts(v.comp, k, v.env.size);
  }

  // ---------- storing ----------

  /** The first len bytes of data become the content of the frame at the cursor. */
  ghost function Stored(v: TxView, data: Payload, len: nat): TxView
    requires Linked(v) && len <= |data| <= v.env.size
  {
    WriteFrame(v.frames, v.env.size, v.env.mtu, v.mem, v.cursor, data, len);
    v.(frames := v.frames[v.cursor := v.frames[v.cursor].(len := len)],
       mem := Written(v.mem, Base(v.cursor, v.env.size), data),
       cursor := Wrap(v.cursor + 1, |v.frames|),
       batched := v.batched + 1,
       accepted := v.accepted + [data[..len]])
  }

  lemma StoreStep(v: TxView, data: Payload, len: nat)
    requires Linked(v) && len <= |data| <= v.env.size
    requires v.cursor !in AbsOf(v).ring && v.cursor !in AbsOf(v).kernel
    ensures Linked(Stored(v, data, len)) && AbsOf(Stored(v, data, len)) == T.Store(AbsOf(v), data[..len])
    ensures Base(|v.frames|, v.env.size) <= |v.mem|
    ensures Stored(v, data, len).mem[Base(|v.frames|, v.env.size)..] == v.mem[Base(|v.frames|, v.env.size)..]
  {
    hide Current;
    hide Bases;
    hide Base;
    WriteFrame(v.frames, v.env.size, v.env.mtu, v.mem, v.cursor, data, len);
    StillCurrent(v.ring, v.frames, v.env.size, v.cursor, v.frames[v.cursor].(len := len));
    StillCurrent(v.held, v.frames, v.env.size, v.cursor, v.frames[v.cursor].(len := len));
  }

  // ---------- submitting ----------

  /** The frames lo..hi, marked as on the tx queue. */
  function MarkedRange(frames: seq<Frame>, lo: nat, hi: nat): (r: seq<Frame>)
    requires lo <= hi <= |frames|
    ensures |r| == |frames|
    ensures forall i {:trigger r[i]} :: 0 <= i < |r| ==>
              r[i] == if lo <= i < hi then frames[i].(status := OnTxQueue) else frames[i]
    decreases hi
  {
    if lo == hi then frames else
      var r := MarkedRange(frames, lo, hi - 1);
      r[hi - 1 := r[hi - 1].(status := OnTxQueue)]
  }

  lemma MarkedStatuses(frames: seq<Frame>, lo: nat, hi: nat)
    requires lo <= hi <= |frames|
    ensures StatusesDiffer(frames, MarkedRange(frames, lo, hi))
    ensures Statuses(MarkedRange(frames, lo, hi)) == SetAll(Statuses(frames), Interval(lo, hi), OnTxQueue)
  {
    hide MarkedRange;
    hide SetAll;
    hide Interval;
    hide Statuses;
  }

  lemma MarkStep(v: TxView, lo: nat, hi: nat)
    requires Linked(v) && lo <= hi <= |v.frames| && T.Contiguous(AbsOf(v))
    requires hi == (if v.cursor == 0 then |v.frames| else v.cursor) && lo == hi - v.batched
    ensures Linked(v.(frames := MarkedRange(v.frames, lo, hi)))
    ensures AbsOf(v.(frames := MarkedRange(v.frames, lo, hi))) == T.Mark(AbsOf(v))
  {
    hide Current;
    hide Placed;
    hide MarkedRange;
    hide Bases;
    hide Indices;
    hide AddrIndices;
    hide Statuses;
    hide Contents;
    hide SetAll;
    hide Interval;
    hide StatusesDiffer;
    var frames' := MarkedRange(v.frames, lo, hi);
    MarkedStatuses(v.frames, lo, hi);
    StatusOnly(v.frames, frames', v.env.size, v.env.mtu, v.mem);
    StatusOnlyCurrent(v.frames, frames', v.env.size, v.ring);
    StatusOnlyCurrent(v.frames, frames', v.env.size, v.held);
  }

  /** The descriptors of a slice of frames. */
  function DescsOf(frames: seq<Frame>): (q: seq<Desc>)
    ensures |q| == |frames|
    ensures forall k {:trigger q[k]} {:trigger frames[k]} :: 0 <= k < |q| ==> q[k] == DescOf(frames[k])
  {
    if frames == [] then [] else DescsOf(frames[..|frames| - 1]) + [DescOf(frames[|frames| - 1])]
  }

  ghost function Enqueued(v: TxView, q: seq<Desc>): TxView {
    v.(ring := v.ring + q, pktsTx := v.pktsTx + v.batched, outstanding := v.outstanding + v.batched, batched := 0)
  }

  lemma EnqueueStep(v: TxView, lo: nat, hi: nat)
    requires Linked(v) && lo <= hi <= |v.frames| && T.Contiguous(AbsOf(v))
    requires hi == (if v.cursor == 0 then |v.frames| else v.cursor) && lo == hi - v.batched
    ensures Linked(Enqueued(v, DescsOf(v.frames[lo..hi])))
    ensures AbsOf(Enqueued(v, DescsOf(v.frames[lo..hi]))) == T.Enqueue(AbsOf(v))
  {
    hide IsCurrent;
    hide Placed;
    hide Bases;
    hide DescOf;
    hide DescsOf;
    hide Indices;
    hide AddrIndices;
    hide Interval;
    hide Statuses;
    hide Contents;
    var q := DescsOf(v.frames[lo..hi]);
    assert forall k {:trigger q[k]} :: 0 <= k < |q| ==> q[k] == DescOf(v.frames[lo + k]);
    SliceDescs(v.frames, v.env.size, v.env.mtu, |v.mem|, lo, hi, q);
    IndicesSum(v.ring, q, v.env.size);
  }

  // ---------- the other half of memory ----------

  lemma SameBytes(mem: seq<Byte>, mem': seq<Byte>, end: nat, a: nat, len: nat)
    requires |mem'| == |mem| && end <= |mem| && mem'[..end] == mem[..end] && a + len <= end
    ensures Bytes(mem', a, len) == Bytes(mem, a, len)
  {
    assert mem'[a..a + len] == mem'[..end][a..a + len];
    assert mem[a..a + len] == mem[..end][a..a + len];
  }

  /** What is written behind the tx frames does not matter to the transmit side. */
  lemma OtherHalf(v: TxView, mem': seq<Byte>)
    requires Linked(v) && |mem'| == |v.mem| && Base(|v.frames|, v.env.size) <= |v.mem|
    requires mem'[..Base(|v.frames|, v.env.size)] == v.mem[..Base(|v.frames|, v.env.size)]
    ensures Linked(v.(mem := mem')) && AbsOf(v.(mem := mem')) == AbsOf(v)
  {
    hide Base;
    hide Current;
    hide Bases;
    hide Bytes;
    hide Contents;
    forall i: nat | i < |v.frames|
      ensures Bytes(mem', v.frames[i].addr, v.frames[i].len) == Bytes(v.mem, v.frames[i].addr, v.frames[i].len)
    {
      assert PlacedAt(v.frames[i], i, v.env.size, v.env.mtu, |v.mem|);
      BasesApart(i, |v.frames|, v.env.size);
      SameBytes(v.mem, mem', Base(|v.frames|, v.env.size), v.frames[i].addr, v.frames[i].len);
    }
    assert Contents(v.frames, mem') == Contents(v.frames, v.mem);
  }

  /** The tx part of a fresh layout. */
  lemma LayoutPlaced(frames: seq<Frame>, c: UmemConfig, n: nat)
    requires Layout(frames, c) && HeadroomsFit(c)
    requires 0 < n <= |frames| && 0 < c.frameSize < TWO32 && Base(n - 1, c.frameSize) < TWO32
    ensures Placed(frames[..n], c.frameSize, Mtu(c), Base(|frames|, c.frameSize))
    ensures forall i :: 0 <= i < n ==> frames[..n][i].status == Free
  {
    hide Base;
    LayoutBases(frames, c);
    forall i: nat | i < n ensures Base(i, c.frameSize) + c.frameSize <= Base(|frames|, c.frameSize) {
      BasesApart(i, |frames|, c.frameSize);
    }
    if n < |frames| { BasesApart(n, |frames|, c.frameSize); }
  }
}
