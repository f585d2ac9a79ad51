/** Facts about sequences of frame indices that both halves of the protocol share:
    sequences without repetition, contiguous runs of positions on a cycle of n
    frames, and reading a table through a sequence of indices. */
module Sequences {
  import opened Arithmetic

  /** No value occurs twice. */
  ghost predicate Distinct<T>(q: seq<T>) {
    forall i, j :: 0 <= i < j < |q| ==> q[i] != q[j]
  }

  ghost predicate Below(q: seq<nat>, n: nat) {
    forall i :: 0 <= i < |q| ==> q[i] < n
  }

  lemma DistinctIffSimple<T>(q: seq<T>)
    ensures Distinct(q) <==> forall x :: multiset(q)[x] <= 1
  {
    if q != [] {
      var last := |q| - 1;
      assert q == q[..last] + [q[last]];
      DistinctIffSimple(q[..last]);
      if Distinct(q) {
        assert q[last] !in q[..last];
        assert multiset(q[..last])[q[last]] == 0;
      } else if Distinct(q[..last]) {
        var i :| 0 <= i < last && q[i] == q[last];
        assert q[..last][i] in multiset(q[..last]);
        assert multiset(q)[q[last]] >= 2;
      } else {
        var x :| multiset(q[..last])[x] > 1;
        assert multiset(q)[x] > 1;
      }
    }
  }

  /** A rearrangement of a sequence without repetition has no repetition and the same elements. */
  lemma Rearranged<T>(p: seq<T>, q: seq<T>)
    requires multiset(p) == multiset(q)
    ensures |p| == |q|
    ensures Distinct(p) <==> Distinct(q)
    ensures forall x :: x in p <==> x in q
  {
    DistinctIffSimple(p);
    DistinctIffSimple(q);
    assert |multiset(p)| == |multiset(q)|;
    forall x ensures x in p <==> x in q {
      assert x in p <==> x in multiset(p);
      assert x in q <==> x in multiset(q);
    }
  }

  lemma DistinctSum<T>(p: seq<T>, q: seq<T>)
    requires Distinct(p + q)
    ensures Distinct(p) && Distinct(q)
    ensures forall x :: x in p ==> x !in q
  {
    var all := p + q;
    assert forall i :: 0 <= i < |p| ==> p[i] == all[i];
    assert forall j :: 0 <= j < |q| ==> q[j] == all[|p| + j];
  }

  /** Removing one position. */
  function Without<T>(q: seq<T>, i: nat): (r: seq<T>)
    requires i < |q|
    ensures |r| == |q| - 1
    ensures multiset(r) + multiset{q[i]} == multiset(q)
  {
    assert q == q[..i] + [q[i]] + q[i + 1..];
    q[..i] + q[i + 1..]
  }

  /** One element of the middle part moved to its front end: a rearrangement. */
  lemma MoveForward<T>(a: seq<T>, k: seq<T>, i: nat, f: seq<T>)
    requires i < |k|
    ensures multiset(a + [k[i]] + Without(k, i) + f) == multiset(a + k + f)
  {
    assert multiset(Without(k, i)) + multiset{k[i]} == multiset(k);
  }

  lemma MoveFirst<T>(a: seq<T>, k: seq<T>, f: seq<T>)
    requires k != []
    ensures a + [k[0]] + Without(k, 0) + f == a + k + f
  {
    assert [k[0]] + Without(k, 0) == k;
    assert a + [k[0]] + Without(k, 0) == a + ([k[0]] + Without(k, 0));
  }

  ghost function Elements<T(!new)>(q: seq<T>): (s: set<T>)
    ensures forall x :: x in s <==> x in q
  {
    set x | x in q
  }

  lemma {:induction false} DistinctCount<T(!new)>(q: seq<T>)
    requires Distinct(q)
    ensures |Elements(q)| == |q|
  {
    if q != [] {
      var last := |q| - 1;
      DistinctCount(q[..last]);
      assert q == q[..last] + [q[last]];
      assert Elements(q) == Elements(q[..last]) + {q[last]};
    }
  }

  ghost function Range(n: nat): (s: set<nat>)
    ensures forall x: nat :: x in s <==> x < n
    ensures |s| == n
  {
    if n == 0 then {} else Range(n - 1) + {n - 1}
  }

  lemma SubsetSize<T>(a: set<T>, b: set<T>)
    requires a <= b
    ensures |a| <= |b|
  {
    assert |b| == |a| + |b - a|;
  }

  /** Pigeonhole: at most n distinct indices fit below n, and n of them are all of them. */
  lemma Pigeonhole(q: seq<nat>, n: nat)
    requires Distinct(q) && Below(q, n)
    ensures |q| <= n
    ensures |q| == n ==> forall x: nat :: x < n ==> x in q
  {
    DistinctCount(q);
    assert Elements(q) <= Range(n);
    SubsetSize(Elements(q), Range(n));
    if |q| == n {
      assert |Range(n) - Elements(q)| == 0;
      assert Range(n) - Elements(q) == {};
      forall x: nat | x < n ensures x in q {
        assert x in Range(n);
      }
    }
  }

  /** Position x on a cycle of n positions, for an x that went round at most once. */
  function Wrap(x: nat, n: nat): (r: nat)
    requires x < 2 * n
    ensures r < n
  {
    if x < n then x else x - n
  }

  /** Wrap is the source's remainder on such an x. */
  lemma WrapIsRemainder(x: nat, n: nat)
    requires x < 2 * n
    ensures Wrap(x, n) == x % n
  {
    if x < n {
      RemainderIsUnique(0, x, n);
    } else {
      RemainderIsUnique(1, x - n, n);
    }
  }

  /** The count positions a, a + 1, ... on a cycle of n. */
  function Span(a: nat, count: nat, n: nat): (q: seq<nat>)
    requires a + count <= 2 * n
    ensures |q| == count && Below(q, n)
    ensures forall k {:trigger q[k]} :: 0 <= k < count ==> q[k] == Wrap(a + k, n)
  {
    if count == 0 then [] else Span(a, count - 1, n) + [Wrap(a + count - 1, n)]
  }

  /** The count positions that come just before c on a cycle of n. */
  function Before(c: nat, count: nat, n: nat): (q: seq<nat>)
    requires c < n && count <= n
    ensures |q| == count && Below(q, n) && Distinct(q)
  {
    Span(c + n - count, count, n)
  }

  /** The count positions that start skip places after c on a cycle of n. */
  function After(c: nat, skip: nat, count: nat, n: nat): (q: seq<nat>)
    requires c < n && skip + count <= n
    ensures |q| == count && Below(q, n) && Distinct(q)
  {
    Span(c + skip, count, n)
  }

  lemma BeforeNext(c: nat, count: nat, n: nat)
    requires c < n && count < n
    ensures Before(Wrap(c + 1, n), count + 1, n) == Before(c, count, n) + [c]
    ensures c !in Before(c, count, n)
  {
  }

  lemma BeforeSuffix(c: nat, count: nat, total: nat, n: nat)
    requires c < n && count <= total <= n
    ensures Before(c, total, n)[total - count..] == Before(c, count, n)
  {
  }

  lemma BeforeFull(c: nat, n: nat)
    requires c < n
    ensures c in Before(c, n, n)
  {
    assert Before(c, n, n)[0] == c;
  }

  /** The table read at each index of q. */
  function Read<T>(table: seq<T>, q: seq<nat>): (r: seq<T>)
    requires Below(q, |table|)
    ensures |r| == |q|
    ensures forall k :: 0 <= k < |q| ==> r[k] == table[q[k]]
  {
    seq(|q|, k requires 0 <= k < |q| => table[q[k]])
  }

  lemma ReadSum<T>(table: seq<T>, p: seq<nat>, q: seq<nat>)
    requires Below(p, |table|) && Below(q, |table|)
    ensures Below(p + q, |table|)
    ensures Read(table, p + q) == Read(table, p) + Read(table, q)
  {
    assert Below(p + q, |table|);
  }

  lemma ReadElsewhere<T>(table: seq<T>, q: seq<nat>, i: nat, v: T)
    requires Below(q, |table|) && i < |table| && i !in q
    ensures Read(table[i := v], q) == Read(table, q)
  {
  }

  lemma ReadWithout<T>(table: seq<T>, q: seq<nat>, i: nat)
    requires Below(q, |table|) && i < |q|
    ensures Below(Without(q, i), |table|)
    ensures Read(table, Without(q, i)) == Without(Read(table, q), i)
  {
  }

  /** Every index of q set to v, one at a time, as the source loops do. */
  function SetAll<T>(table: seq<T>, q: seq<nat>, v: T): (r: seq<T>)
    requires Below(q, |table|)
    ensures |r| == |table|
    ensures forall i :: 0 <= i < |table| ==> r[i] == if i in q then v else table[i]
  {
    if q == [] then table else
      var last := |q| - 1;
      assert q == q[..last] + [q[last]];
      SetAll(table, q[..last], v)[q[last] := v]
  }

  function Min(a: nat, b: nat): nat { if a < b then a else b }

  /** The indices lo, lo + 1, ..., hi - 1. */
  function Interval(lo: nat, hi: nat): (q: seq<nat>)
    requires lo <= hi
    ensures |q| == hi - lo && Below(q, hi) && Distinct(q)
    ensures forall x :: x in q <==> lo <= x < hi
    ensures forall k :: 0 <= k < hi - lo ==> q[k] == lo + k
  {
    if lo == hi then [] else Interval(lo, hi - 1) + [hi - 1]
  }
}
