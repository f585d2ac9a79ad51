/** The single-producer single-consumer rings shared with the kernel, with the copy loops that the
    source wraps round the libbpf calls. Indices run freely modulo 2^32 and are masked to a slot. */
module Rings {
  import opened Arithmetic
  import opened Sequences
  import opened PowerOfTwo

  /** A 32-bit index k places on. */
  function Advance(idx: nat, k: nat): (r: nat)
    ensures r < TWO32
  {
    (idx + k) % TWO32
  }

  /** The slot of an index that has not been wrapped. */
  function SlotOf(idx: nat, size: nat): (r: nat)
    requires size > 0
    ensures r < size
  {
    idx % size
  }

  /** What a ring with this many entries from index cons on holds, oldest first. */
  ghost function View<T>(slots: seq<T>, cons: nat, count: nat): (r: seq<T>)
    requires |slots| > 0
    ensures |r| == count
    ensures forall k {:trigger r[k]} :: 0 <= k < count ==> r[k] == slots[SlotOf(cons + k, |slots|)]
  {
    if count == 0 then [] else View(slots, cons, count - 1) + [slots[SlotOf(cons + count - 1, |slots|)]]
  }

  lemma NearbySlotsDiffer(a: nat, b: nat, size: nat)
    requires a < b < a + size
    ensures SlotOf(a, size) != SlotOf(b, size)
  {
    NearbyRemaindersDiffer(a, b - a, size);
  }

  lemma ViewWrite<T>(slots: seq<T>, cons: nat, count: nat, v: T)
    requires count < |slots|
    ensures var at := SlotOf(cons + count, |slots|);
            View(slots[at := v], cons, count + 1) == View(slots, cons, count) + [v]
  {
    hide SlotOf;
    var at := SlotOf(cons + count, |slots|);
    var w := slots[at := v];
    forall k | 0 <= k < count ensures View(w, cons, count + 1)[k] == View(slots, cons, count)[k] {
      NearbySlotsDiffer(cons + k, cons + count, |slots|);
    }
  }

  /** Wrapping an index does not change the slots from it on. */
  lemma SlotAfterWrap(x: nat, k: nat, j: nat, size: nat)
    requires IsPowOfTwo(size) && size < TWO32
    ensures SlotOf(Advance(x, k) + j, size) == SlotOf(x + k + j, size)
  {
    var times := RingSize(size);
    var y := (x + k) % TWO32;
    var q := (x + k) / TWO32;
    assert x + k == q * TWO32 + y;
    SkipTurns(y + j, q, times, size);
  }

  lemma SkipTurns(y: nat, q: nat, times: nat, size: nat)
    requires size >= 1 && TWO32 == times * size
    ensures (y + q * TWO32) % size == y % size
  {
    var a, r := y / size, y % size;
    assert y == a * size + r;
    assert q * TWO32 == (q * times) * size by { assert q * (times * size) == (q * times) * size; }
    assert y + q * TWO32 == (a + q * times) * size + r;
    RemainderIsUnique(a + q * times, r, size);
  }

  lemma AdvanceTwice(idx: nat, i: nat)
    ensures Advance(Advance(idx, i), 1) == Advance(idx, i + 1)
  {
  }

  lemma ViewReleased<T>(slots: seq<T>, cons: nat, count: nat, k: nat)
    requires 0 < |slots| < TWO32 && IsPowOfTwo(|slots|) && k <= count
    ensures View(slots, Advance(cons, k), count - k) == View(slots, cons, count)[k..]
  {
    hide SlotOf;
    hide Advance;
    hide IsPowOfTwo;
    var w := View(slots, Advance(cons, k), count - k);
    forall j | 0 <= j < count - k ensures w[j] == View(slots, cons, count)[k..][j] {
      SlotAfterWrap(cons, k, j, |slots|);
    }
  }

  /** The slot the producer writes next is the one just past the entries. */
  lemma ProducerSlot(prod: nat, cons: nat, count: nat, i: nat, size: nat)
    requires IsPowOfTwo(size) && size < TWO32
    requires prod == cons + count || prod + TWO32 == cons + count
    ensures SlotOf(Advance(prod, i), size) == SlotOf(cons + count + i, size)
  {
    var times := RingSize(size);
    SlotAfterWrap(prod, i, 0, size);
    if prod != cons + count {
      SkipTurns(prod + i, 1, times, size);
    }
  }

  class Ring<T(0)> {
    const size: nat
    const slots: array<T>
    var prod: nat
    var cons: nat

    ghost predicate Valid()
      reads this
    {
      && IsPowOfTwo(size) && 0 < size < TWO32 && slots.Length == size
      && prod < TWO32 && cons < TWO32 && Count() <= size
    }

    /** Entries submitted and not yet released. */
    function Count(): nat
      requires prod < TWO32 && cons < TWO32
      reads this
    {
      if prod >= cons then prod - cons else prod + TWO32 - cons
    }

    ghost function Contents(): (q: seq<T>)
      requires Valid()
      reads this, slots
      ensures |q| == Count() <= size
    {
      View(slots[..], cons, Count())
    }

    constructor (size: nat)
      requires IsPowOfTwo(size) && size < TWO32
      ensures Valid() && Contents() == [] && this.size == size && fresh(slots)
    {
      this.size := size;
      slots := new T[size];
      prod, cons := 0, 0;
    }

    /** The slot a free-running index is masked to. */
    function Slot(idx: nat): (i: nat)
      requires IsPowOfTwo(size) && size < TWO32
      ensures size > 0 && i == SlotOf(idx, size)
    {
      assert And(idx, size - 1) == idx % size by { var times := RingSize(size); }
      And(idx, size - 1)
    }

    /** Append all items in order, or none if they do not all fit. */
    method Produce(items: seq<T>) returns (n: nat)
      requires Valid()
      modifies this`prod, slots
      ensures Valid()
      ensures if |old(Contents())| + |items| <= size
              then n == |items| && Contents() == old(Contents()) + items
              else n == 0 && Contents() == old(Contents())
    {
      hide SlotOf;
      hide IsPowOfTwo;
      n := 0;
      if |items| == 0 || Count() + |items| > size {
        assert old(Contents()) + [] == old(Contents());
        return;
      }
      n := |items|;
      Fill(items);
      prod := Advance(prod, n);
    }

    /** Write the items to the slots past the entries, without submitting them. */
    method Fill(items: seq<T>)
      requires Valid() && Count() + |items| <= size
      modifies slots
      ensures View(slots[..], cons, Count() + |items|) == old(Contents()) + items
    {
      hide SlotOf;
      hide Advance;
      hide IsPowOfTwo;
      var idx := prod;
      StartIndex();
      ghost var was := Contents();
      assert was == was + items[..0];
      for i := 0 to |items|
        invariant idx == Advance(prod, i)
        invariant View(slots[..], cons, Count() + i) == was + items[..i]
      {
        ProducerSlot(prod, cons, Count(), i, size);
        ViewWrite(slots[..], cons, Count() + i, items[i]);
        slots[Slot(idx)] := items[i];
        assert was + items[..i] + [items[i]] == was + items[..i + 1];
        AdvanceTwice(prod, i);
        idx := Advance(idx, 1);
      }
      assert items[..|items|] == items;
    }

    lemma StartIndex()
      requires Valid()
      ensures prod == Advance(prod, 0) && cons == Advance(cons, 0)
    {
    }

    /** Remove up to max of the oldest entries and copy them to the front of out; entries that out
        has no room for are released without being copied. */
    method Consume(max: nat, out: array<T>) returns (cnt: nat)
      requires Valid() && out != slots
      modifies this`cons, out
      ensures Valid()
      ensures cnt == Min(max, |old(Contents())|)
      ensures Contents() == old(Contents())[cnt..]
      ensures out[..Min(cnt, out.Length)] == old(Contents())[..Min(cnt, out.Length)]
      ensures out[Min(cnt, out.Length)..] == old(out[Min(cnt, out.Length)..])
    {
      hide SlotOf;
      hide IsPowOfTwo;
      cnt := Min(max, Count());
      Copy(Min(cnt, out.Length), out);
      Release(cnt);
    }

    /** Copy the k oldest entries. */
    method Copy(k: nat, out: array<T>)
      requires Valid() && out != slots && k <= Count() && k <= out.Length
      modifies out
      ensures out[..k] == Contents()[..k]
      ensures out[k..] == old(out[k..])
    {
      hide SlotOf;
      hide Advance;
      hide IsPowOfTwo;
      var idx := cons;
      StartIndex();
      for i := 0 to k
        invariant idx == Advance(cons, i)
        invariant forall j :: 0 <= j < i ==> out[j] == Contents()[j]
        invariant forall j :: i <= j < out.Length ==> out[j] == old(out[j])
      {
        SlotAfterWrap(cons, i, 0, size);
        out[i] := slots[Slot(idx)];
        AdvanceTwice(cons, i);
        idx := Advance(idx, 1);
      }
    }

    method Release(cnt: nat)
      requires Valid() && cnt <= Count()
      modifies this`cons
      ensures Valid() && Contents() == old(Contents())[cnt..]
    {
      hide SlotOf;
      hide IsPowOfTwo;
      ViewReleased(slots[..], cons, Count(), cnt);
      cons := Advance(cons, cnt);
    }

    /** The kernel takes the oldest entry. */
    method Pop() returns (x: T)
      requires Valid() && Count() > 0
      modifies this`cons
      ensures Valid()
      ensures x == old(Contents())[0] && Contents() == old(Contents())[1..]
    {
      hide SlotOf;
      hide IsPowOfTwo;
      x := slots[Slot(cons)];
      Release(1);
    }
  }
}
