/** The power-of-two test, and why ring indexing depends on it: on a ring of such a size masking a
    free-running 32-bit index is a remainder that survives the index wrapping round. Bitwise and
    is modelled on naturals, bit by bit. */
module PowerOfTwo {
  import opened Arithmetic

  const TWO32: nat := 0x1_0000_0000

  function And(a: nat, b: nat): nat {
    if a == 0 || b == 0 then 0 else 2 * And(a / 2, b / 2) + (a % 2) * (b % 2)
  }

  predicate IsPowOfTwo(v: nat) {
    v != 0 && And(v, v - 1) == 0
  }

  function Pow2(k: nat): (r: nat)
    ensures r >= 1
  {
    if k == 0 then 1 else 2 * Pow2(k - 1)
  }

  lemma {:induction false} AndSelf(v: nat)
    ensures And(v, v) == v
  {
    if v != 0 {
      AndSelf(v / 2);
    }
  }

  lemma EvenAnd(h: nat)
    requires h >= 1
    ensures And(2 * h, 2 * h - 1) == 2 * And(h, h - 1)
  {
    var w := 2 * h - 1;
    assert w / 2 == h - 1 && w % 2 == 1 && (2 * h) / 2 == h;
  }

  lemma OddAnd(h: nat)
    ensures And(2 * h + 1, 2 * h) == 2 * h
  {
    var w := 2 * h + 1;
    assert w / 2 == h && w % 2 == 1 && (2 * h) / 2 == h;
    AndSelf(h);
  }

  lemma {:induction false} PowersPass(k: nat)
    ensures IsPowOfTwo(Pow2(k))
  {
    if k == 0 {
      assert And(1, 0) == 0;
    } else {
      PowersPass(k - 1);
      EvenAnd(Pow2(k - 1));
    }
  }

  lemma {:induction false} PassingIsPower(v: nat) returns (k: nat)
    requires IsPowOfTwo(v)
    ensures v == Pow2(k)
  {
    if v == 1 {
      k := 0;
    } else if v % 2 == 0 {
      EvenAnd(v / 2);
      k := PassingIsPower(v / 2);
      k := k + 1;
    } else {
      k := 0;
      OddAnd(v / 2);
      assert false;
    }
  }

  ghost predicate IsPower(v: nat) { exists k: nat :: v == Pow2(k) }

  /** The test accepts exactly the powers of two. */
  lemma IsPowOfTwoIff(v: nat)
    ensures IsPowOfTwo(v) <==> IsPower(v)
  {
    if IsPowOfTwo(v) {
      var k := PassingIsPower(v);
      assert v == Pow2(k);
    } else if IsPower(v) {
      var k: nat :| v == Pow2(k);
      PowersPass(k);
    }
  }

  lemma HalvesOfRemainder(x: nat, p: nat)
    requires p >= 1
    ensures x % (2 * p) == 2 * ((x / 2) % p) + x % 2
  {
    var h, b := x / 2, x % 2;
    var q, r := h / p, h % p;
    assert h == q * p + r;
    assert x == 2 * (q * p + r) + b;
    assert x == q * (2 * p) + (2 * r + b);
    RemainderIsUnique(q, 2 * r + b, 2 * p);
  }

  /** Masking with a power of two less one is the remainder. */
  lemma {:induction false} MaskIsRemainder(x: nat, k: nat)
    ensures And(x, Pow2(k) - 1) == x % Pow2(k)
    decreases k
  {
    if k == 0 {
    } else {
      var p := Pow2(k - 1);
      var m := Pow2(k) - 1;
      assert m == 2 * (p - 1) + 1 && m / 2 == p - 1 && m % 2 == 1;
      MaskIsRemainder(x / 2, k - 1);
      HalvesOfRemainder(x, p);
    }
  }

  lemma {:induction false} PowersGrow(j: nat, k: nat)
    requires j <= k
    ensures Pow2(k) == Pow2(k - j) * Pow2(j)
    decreases k
  {
    if j < k {
      PowersGrow(j, k - 1);
      assert Pow2(k) == 2 * (Pow2(k - 1 - j) * Pow2(j));
    }
  }

  lemma {:induction false} PowersIncrease(j: nat, k: nat)
    requires j < k
    ensures Pow2(j) < Pow2(k)
    decreases k
  {
    if j < k - 1 {
      PowersIncrease(j, k - 1);
    }
  }

  lemma Pow32()
    ensures Pow2(32) == TWO32
  {
    assert Pow2(8) == 256;
    PowersGrow(8, 16);
    PowersGrow(16, 32);
  }

  /** A 32-bit power of two divides 2^32, and its mask is the remainder. */
  lemma RingSize(size: nat) returns (times: nat)
    requires IsPowOfTwo(size) && size < TWO32
    ensures TWO32 == times * size
    ensures forall x: nat :: And(x, size - 1) == x % size
  {
    var k := PassingIsPower(size);
    Pow32();
    if k > 32 {
      PowersIncrease(32, k);
    }
    PowersGrow(k, 32);
    times := Pow2(32 - k);
    forall x: nat ensures And(x, size - 1) == x % size {
      MaskIsRemainder(x, k);
    }
  }

  /** Dropping whole turns of 2^32 does not change the slot. */
  lemma WrappingKeepsSlot(x: nat, size: nat, times: nat)
    requires size >= 1 && TWO32 == times * size
    ensures (x % TWO32) % size == x % size
  {
    var q, r := x / TWO32, x % TWO32;
    var q', r' := r / size, r % size;
    assert x == q * TWO32 + r && r == q' * size + r';
    assert q * TWO32 == (q * times) * size by { assert q * (times * size) == (q * times) * size; }
    assert x == (q * times + q') * size + r';
    RemainderIsUnique(q * times + q', r', size);
  }

  lemma NearbyRemaindersDiffer(x: nat, d: nat, size: nat)
    requires 0 < d < size
    ensures (x + d) % size != x % size
  {
    var q, r := x / size, x % size;
    assert x == q * size + r;
    if r + d < size {
      RemainderIsUnique(q, r + d, size);
    } else {
      assert x + d == (q + 1) * size + (r + d - size);
      RemainderIsUnique(q + 1, r + d - size, size);
    }
  }

  /** Any size consecutive indices, also across the wrap at 2^32, are masked to distinct slots. */
  lemma MaskedIndicesDiffer(idx: nat, i: nat, j: nat, size: nat)
    requires IsPowOfTwo(size) && size < TWO32 && idx < TWO32
    requires i < j < i + size
    ensures And((idx + i) % TWO32, size - 1) != And((idx + j) % TWO32, size - 1)
  {
    var times := RingSize(size);
    WrappingKeepsSlot(idx + i, size, times);
    WrappingKeepsSlot(idx + j, size, times);
    NearbyRemaindersDiffer(idx + i, j - i, size);
  }
}
