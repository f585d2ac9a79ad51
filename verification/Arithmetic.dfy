/** Remainders. */
module Arithmetic {

  lemma AtLeastOne(k: int, b: nat)
    requires k >= 1
    ensures k * b >= b
  {
    assert k * b == b + (k - 1) * b;
  }

  lemma RemainderIsUnique(q: nat, r: nat, b: nat)
    requires r < b
    ensures (q * b + r) % b == r && (q * b + r) / b == q
  {
    var x := q * b + r;
    var q', r' := x / b, x % b;
    assert q' * b + r' == x;
    assert (q' - q) * b == r - r';
    assert (q - q') * b == r' - r;
    if q' > q { AtLeastOne(q' - q, b); }
    if q > q' { AtLeastOne(q - q', b); }
  }

  lemma MultipleHasNoRemainder(q: nat, b: nat)
    requires 1 <= b
    ensures (q * b) % b == 0
  {
    RemainderIsUnique(q, 0, b);
  }

  lemma NextRemainder(c: nat, b: nat)
    requires 1 <= b
    ensures (c + 1) % b == if c % b + 1 == b then 0 else c % b + 1
  {
    var q, r := c / b, c % b;
    assert c == q * b + r;
    if r + 1 == b {
      assert c + 1 == (q + 1) * b;
      MultipleHasNoRemainder(q + 1, b);
    } else {
      RemainderIsUnique(q, r + 1, b);
    }
  }

  lemma RemainderAtMost(c: nat, b: nat)
    requires 1 <= b
    ensures c % b <= c
    ensures c % b == 0 && c > 0 ==> b <= c
  {
    if c < b { RemainderIsUnique(0, c, b); }
  }
}
