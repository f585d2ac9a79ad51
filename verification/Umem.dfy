/** The UMEM: one byte array cut into equal frames, the checked accesses to it, the configuration
    gates, and how a frame's index is recovered from an address in it. */
module Umem {
  import opened Arithmetic
  import opened PowerOfTwo
  import opened Frames

  /** The user's record of a frame. */
  datatype Frame = Frame(addr: nat, len: nat, options: nat, mtu: nat, status: FrameStatus)

  /** What travels on the tx and rx rings. */
  datatype Desc = Desc(addr: nat, len: nat, options: nat)

  // ---------- bytes ----------

  function Bytes(mem: seq<Byte>, addr: nat, len: nat): (p: Payload)
    requires addr + len <= |mem|
    ensures |p| == len
  {
    mem[addr..addr + len]
  }

  function Written(mem: seq<Byte>, addr: nat, data: Payload): (r: seq<Byte>)
    requires addr + |data| <= |mem|
    ensures |r| == |mem|
  {
    mem[..addr] + data + mem[addr + |data|..]
  }

  lemma ReadBack(mem: seq<Byte>, addr: nat, data: Payload)
    requires addr + |data| <= |mem|
    ensures Bytes(Written(mem, addr, data), addr, |data|) == data
  {
  }

  lemma ReadElsewhere(mem: seq<Byte>, addr: nat, data: Payload, a: nat, len: nat)
    requires addr + |data| <= |mem| && a + len <= |mem|
    requires a + len <= addr || addr + |data| <= a
    ensures Bytes(Written(mem, addr, data), a, len) == Bytes(mem, a, len)
  {
    assert forall k :: a <= k < a + len ==> Written(mem, addr, data)[k] == mem[k];
  }

  method CopyIn(mem: array<Byte>, addr: nat, data: Payload)
    requires addr + |data| <= mem.Length
    modifies mem
    ensures mem[..] == Written(old(mem[..]), addr, data)
  {
    for i := 0 to |data|
      invariant forall k :: 0 <= k < i ==> mem[addr + k] == data[k]
      invariant forall k :: 0 <= k < mem.Length && !(addr <= k < addr + i) ==> mem[k] == old(mem[k])
    {
      mem[addr + i] := data[i];
    }
    assert forall k :: addr <= k < addr + |data| ==> mem[k] == data[k - addr] by {
      forall k | addr <= k < addr + |data| ensures mem[k] == data[k - addr] {
        assert mem[addr + (k - addr)] == data[k - addr];
      }
    }
  }

  // ---------- checked access ----------

  datatype AccessError = CrossesFrameBoundary(addr: nat, len: nat)
  datatype DataError = SizeExceedsMtu(dataLen: nat, mtu: nat)
  datatype Result<+T, +E> = Ok(value: T) | Err(error: E)

  function ReadChecked(f: Frame, mem: seq<Byte>, len: nat): (r: Result<Payload, AccessError>)
    requires f.addr + f.len <= |mem|
    ensures r.Ok? <==> len <= f.len
    ensures r.Ok? ==> |r.value| == len && forall i :: 0 <= i < len ==> r.value[i] == mem[f.addr + i]
    ensures r.Err? ==> r.error == CrossesFrameBoundary(f.addr, len)
  {
    if len > f.len then Err(CrossesFrameBoundary(f.addr, len)) else Ok(Bytes(mem, f.addr, len))
  }

  /** write_to_umem_checked: an oversized write is refused and changes nothing; otherwise the data
      is what a checked read of the frame then returns, and no byte outside it changes. */
  method WriteChecked(f: Frame, mem: array<Byte>, data: Payload) returns (r: Result<Frame, DataError>)
    requires f.addr + f.mtu <= mem.Length
    modifies mem
    ensures r.Ok? <==> |data| <= f.mtu
    ensures r.Err? ==> mem[..] == old(mem[..])
    ensures r.Ok? ==>
              && mem[..] == Written(old(mem[..]), f.addr, data)
              && r.value == f.(len := |data|)
              && ReadChecked(r.value, mem[..], |data|) == Ok(data)
              && forall a: nat, len: nat :: a + len <= mem.Length && (a + len <= f.addr || f.addr + f.mtu <= a) ==>
                   Bytes(mem[..], a, len) == old(Bytes(mem[..], a, len))
  {
    if |data| > 0 {
      if |data| > f.mtu {
        return Err(SizeExceedsMtu(|data|, f.mtu));
      }
      CopyIn(mem, f.addr, data);
    } else {
      assert mem[..] == Written(mem[..], f.addr, data);
    }
    ReadBack(old(mem[..]), f.addr, data);
    forall a: nat, len: nat | a + len <= mem.Length && (a + len <= f.addr || f.addr + f.mtu <= a)
      ensures Bytes(mem[..], a, len) == old(Bytes(mem[..], a, len))
    {
      ReadElsewhere(old(mem[..]), f.addr, data, a, len);
    }
    r := Ok(f.(len := |data|));
  }

  // ---------- chunks ----------

  /** Where chunk i starts. */
  function Base(i: nat, size: nat): nat { i * size }

  /** The chunk an address is in. */
  function Chunk(addr: nat, size: nat): nat
    requires size > 0
  {
    addr / size
  }

  lemma ChunkOfBase(i: nat, off: nat, size: nat)
    requires off < size
    ensures Chunk(Base(i, size) + off, size) == i
  {
    ChunkOf(i, off, size);
  }

  lemma BasesApart(i: nat, j: nat, size: nat)
    requires i < j
    ensures Base(i, size) + size <= Base(j, size)
  {
    ChunksApart(i, j, size);
  }

  lemma ChunksApart(i: nat, j: nat, size: nat)
    requires i < j
    ensures i * size + size <= j * size
  {
    AtLeastOne(j - i, size);
    assert j * size == i * size + (j - i) * size;
  }

  lemma ChunkOf(i: nat, off: nat, size: nat)
    requires off < size
    ensures (i * size + off) / size == i
  {
    RemainderIsUnique(i, off, size);
  }

  /** Ranges inside different chunks do not overlap. */
  lemma DifferentChunks(mem: seq<Byte>, size: nat, i: nat, off: nat, data: Payload, j: nat, a: nat, len: nat)
    requires i != j && off + |data| <= size && Base(j, size) <= a && a + len <= Base(j, size) + size
    requires Base(i, size) + size <= |mem| && Base(j, size) + size <= |mem|
    ensures Bytes(Written(mem, Base(i, size) + off, data), a, len) == Bytes(mem, a, len)
  {
    hide Base;
    if i < j { BasesApart(i, j, size); } else { BasesApart(j, i, size); }
    ReadElsewhere(mem, Base(i, size) + off, data, a, len);
  }

  // ---------- index recovery ----------

  /** update_tx_frames: the completion address, cast to u32, divided by the frame size. */
  function TxIndex(addr: nat, size: nat): nat
    requires size > 0
  {
    (addr % TWO32) / size
  }

  /** update_rx_frames: u32 subtraction of the offset, wrapping as in a release build. */
  function RxIndex(addr: nat, offset: nat, size: nat): nat
    requires size > 0
  {
    ((addr % TWO32 + TWO32 - offset % TWO32) % TWO32) / size
  }

  lemma TruncatedQuotient(i: nat, o: nat, size: nat)
    requires o < size < TWO32
    ensures ((i * size + o) % TWO32) / size == i <==> i * size + o < TWO32
  {
    var x := i * size + o;
    ChunkOf(i, o, size);
    if x < TWO32 {
      RemainderIsUnique(0, x, TWO32);
    } else {
      var y := x % TWO32;
      assert y <= x - TWO32 by {
        assert x == (x / TWO32) * TWO32 + y;
        AtLeastOne(x / TWO32, TWO32);
      }
      QuotientBelow(y, i, size);
    }
  }

  lemma QuotientBelow(y: nat, i: nat, size: nat)
    requires 0 < size && y < i * size
    ensures y / size < i
  {
    var q := y / size;
    assert y == q * size + y % size;
    if q >= i {
      MulMonotone(size, i, q);
      assert false;
    }
  }

  /** The index of every tx frame is recovered from its completion exactly when the last tx frame
      starts below 2^32. */
  lemma TxIndexExact(frames: nat, size: nat)
    requires 1 <= frames && 0 < size < TWO32
    ensures (forall i: nat :: i < frames ==> TxIndex(i * size, size) == i) <==> (frames - 1) * size < TWO32
  {
    TruncatedQuotient(frames - 1, 0, size);
    if (frames - 1) * size < TWO32 {
      forall i: nat | i < frames ensures TxIndex(i * size, size) == i {
        if i < frames - 1 { ChunksApart(i, frames - 1, size); }
        TruncatedQuotient(i, 0, size);
      }
    } else {
      assert TxIndex((frames - 1) * size, size) != frames - 1;
    }
  }

  lemma WrappedDifference(a: nat, b: nat)
    requires b <= a
    ensures (a % TWO32 + TWO32 - b % TWO32) % TWO32 == (a - b) % TWO32
  {
    var d := a - b;
    var qb, rb, qd, rd := b / TWO32, b % TWO32, d / TWO32, d % TWO32;
    assert a == (qb + qd) * TWO32 + (rb + rd);
    if rb + rd < TWO32 {
      RemainderIsUnique(qb + qd, rb + rd, TWO32);
      RemainderIsUnique(1, rd, TWO32);
    } else {
      RemainderIsUnique(qb + qd + 1, rb + rd - TWO32, TWO32);
      RemainderIsUnique(0, rd, TWO32);
    }
  }

  /** Wherever in chunk i of the rx frames the kernel puts a packet, the index recovered from its
      address is i, exactly when the packet starts less than 2^32 bytes after the first rx frame. */
  lemma RxIndexExact(offset: nat, i: nat, o: nat, size: nat)
    requires o < size < TWO32
    ensures RxIndex(offset + i * size + o, offset, size) == i <==> i * size + o < TWO32
  {
    WrappedDifference(offset + i * size + o, offset);
    TruncatedQuotient(i, o, size);
  }

  // ---------- configuration and layout ----------

  const XDP_PACKET_HEADROOM: nat := 256
  const TWO64: nat := TWO32 * TWO32

  datatype UmemConfig = UmemConfig(frameCount: nat, frameSize: nat, fillRingSize: nat, compRingSize: nat,
                                   headroom: nat)

  datatype ConfigError = FrameCountInvalid | FillSizeInvalid | CompSizeInvalid | FrameSizeInvalid

  /** What is wrong with a configuration. */
  ghost predicate Fault(c: UmemConfig, e: ConfigError) {
    match e
    case FrameCountInvalid => c.frameCount == 0
    case FillSizeInvalid => !IsPower(c.fillRingSize)
    case CompSizeInvalid => !IsPower(c.compRingSize)
    case FrameSizeInvalid => c.frameSize < 2048
  }

  /** UmemConfig::new: a configuration is returned unchanged exactly when nothing is wrong with it, and
      otherwise something that is wrong is reported. */
  function NewConfig(c: UmemConfig): (r: Result<UmemConfig, ConfigError>)
    ensures r.Ok? <==> forall e :: !Fault(c, e)
    ensures r.Ok? ==> r.value == c
    ensures r.Err? ==> Fault(c, r.error)
  {
    IsPowOfTwoIff(c.fillRingSize);
    IsPowOfTwoIff(c.compRingSize);
    if c.frameCount == 0 then assert Fault(c, FrameCountInvalid); Err(FrameCountInvalid)
    else if !IsPowOfTwo(c.fillRingSize) then assert Fault(c, FillSizeInvalid); Err(FillSizeInvalid)
    else if !IsPowOfTwo(c.compRingSize) then assert Fault(c, CompSizeInvalid); Err(CompSizeInvalid)
    else if c.frameSize < 2048 then assert Fault(c, FrameSizeInvalid); Err(FrameSizeInvalid)
    else Ok(c)
  }

  /** The error reported is the first fault in this order: frame count, fill ring, completion ring,
      frame size. */
  lemma NewConfigReports(c: UmemConfig)
    ensures Fault(c, FrameCountInvalid) ==> NewConfig(c) == Err(FrameCountInvalid)
    ensures !Fault(c, FrameCountInvalid) && Fault(c, FillSizeInvalid) ==> NewConfig(c) == Err(FillSizeInvalid)
    ensures !Fault(c, FrameCountInvalid) && !Fault(c, FillSizeInvalid) && Fault(c, CompSizeInvalid) ==>
              NewConfig(c) == Err(CompSizeInvalid)
    ensures NewConfig(c) == Err(FrameSizeInvalid) ==> forall e :: Fault(c, e) <==> e == FrameSizeInvalid
  {
    hide IsPowOfTwo;
    hide IsPower;
    IsPowOfTwoIff(c.fillRingSize);
    IsPowOfTwoIff(c.compRingSize);
  }

  /** The UMEM length of 32-bit operands never overflows 64 bits, so umem_len does not panic. */
  lemma UmemLenFits(frameCount: nat, frameSize: nat)
    requires frameCount < TWO32 && frameSize < TWO32
    ensures frameCount * frameSize < TWO64
  {
    assert frameCount * frameSize <= frameCount * TWO32 by { MulMonotone(frameCount, frameSize, TWO32); }
    assert frameCount * TWO32 < TWO32 * TWO32;
  }

  lemma MulMonotone(k: nat, a: nat, b: nat)
    requires a <= b
    ensures k * a <= k * b
  {
    assert k * b == k * a + k * (b - a);
  }

  /** The headrooms leave room in a frame. */
  predicate HeadroomsFit(c: UmemConfig) { XDP_PACKET_HEADROOM + c.headroom <= c.frameSize }

  /** frame_size minus the headrooms, in 64-bit arithmetic that wraps. */
  function Mtu(c: UmemConfig): nat
    requires c.headroom < TWO32
  {
    if HeadroomsFit(c) then c.frameSize - (XDP_PACKET_HEADROOM + c.headroom)
    else c.frameSize + TWO64 - (XDP_PACKET_HEADROOM + c.headroom)
  }

  /** create_umem's frame loop. None is the panic of a build with overflow checks when the headrooms do
      not fit; in a build without them the MTU then wraps. */
  method CreateFrames(c: UmemConfig, overflowChecks: bool) returns (r: Option<seq<Frame>>)
    requires c.headroom < TWO32
    ensures r.None? <==> overflowChecks && !HeadroomsFit(c)
    ensures r.Some? ==> Layout(r.value, c)
  {
    if overflowChecks && !HeadroomsFit(c) {
      return None;
    }
    var mtu := Mtu(c);
    var frames: seq<Frame> := [];
    for i := 0 to c.frameCount
      invariant |frames| == i
      invariant forall k :: 0 <= k < i ==> frames[k] == Frame(k * c.frameSize, 0, 0, mtu, Free)
    {
      frames := frames + [Frame(i * c.frameSize, 0, 0, mtu, Free)];
    }
    r := Some(frames);
  }

  /** The MTU of a new frame is within the frame exactly when the headrooms fit; wrapped, it lets every
      write through that fits in memory. */
  lemma MtuExact(c: UmemConfig)
    requires c.headroom < TWO32
    ensures HeadroomsFit(c) <==> Mtu(c) <= c.frameSize
    ensures !HeadroomsFit(c) && c.frameSize < TWO32 ==> TWO64 - TWO32 - XDP_PACKET_HEADROOM < Mtu(c) < TWO64
  {
    assert TWO64 > TWO32 + XDP_PACKET_HEADROOM;
  }

  ghost predicate Layout(frames: seq<Frame>, c: UmemConfig) {
    && |frames| == c.frameCount && c.headroom < TWO32
    && forall k :: 0 <= k < |frames| ==> frames[k] == Frame(k * c.frameSize, 0, 0, Mtu(c), Free)
  }

  lemma LayoutBases(frames: seq<Frame>, c: UmemConfig)
    requires Layout(frames, c)
    ensures forall k {:trigger frames[k]} :: 0 <= k < |frames| ==>
              frames[k] == Frame(Base(k, c.frameSize), 0, 0, Mtu(c), Free)
  {
  }

  ghost predicate Covers(f: Frame, size: nat, b: nat) { f.addr <= b < f.addr + size }

  /** The frames tile the UMEM: a byte is in it exactly when some frame covers it, and then only one does. */
  lemma FramesTile(frames: seq<Frame>, c: UmemConfig, b: nat)
    requires Layout(frames, c)
    ensures b < c.frameCount * c.frameSize <==> exists i :: 0 <= i < |frames| && Covers(frames[i], c.frameSize, b)
    ensures forall i, j :: 0 <= i < j < |frames| ==>
              !(Covers(frames[i], c.frameSize, b) && Covers(frames[j], c.frameSize, b))
  {
    var size := c.frameSize;
    if b < c.frameCount * size {
      var i := InChunk(b, c.frameCount, size);
      assert Covers(frames[i], size, b);
    }
    forall i | 0 <= i < |frames| && Covers(frames[i], size, b) ensures b < c.frameCount * size {
      ChunksApart(i, c.frameCount, size);
    }
    forall i, j | 0 <= i < j < |frames| ensures !(Covers(frames[i], size, b) && Covers(frames[j], size, b)) {
      ChunksApart(i, j, size);
    }
  }

  lemma InChunk(b: nat, count: nat, size: nat) returns (i: nat)
    requires size > 0 && b < count * size
    ensures i < count && i * size <= b < i * size + size
  {
    i := b / size;
    assert b == i * size + b % size;
    if i >= count {
      MulMonotone(size, count, i);
    }
  }
}
