/** The smaller of two numbers; division and remainder by a variable divisor; the pigeonhole principle. */
module Arithmetic {

  function Min(a: nat, b: nat): nat { if a < b then a else b }

  lemma MulAtLeast(a: int, d: int)
    requires a >= 0 && d >= 1
    ensures a * d >= a
  {
  }

  lemma MulSub(a: int, q: int, k: int)
    ensures a * q - a * k == a * (q - k)
  {
  }

  lemma SmallMultiple(a: int, d: int, e: int)
    requires a > 0 && a * d == e && -a < e < a
    ensures d == 0
  {
    if d > 0 { MulAtLeast(a, d); } else if d < 0 { MulAtLeast(a, -d); }
  }

  /** Quotient and remainder are determined by x == a * k + r with 0 <= r < a. */
  lemma DivModUnique(x: int, a: int, k: int, r: int)
    requires a > 0 && x == a * k + r && 0 <= r < a
    ensures x / a == k && x % a == r
  {
    var q, m := x / a, x % a;
    assert x == a * q + m;
    MulSub(a, q, k);
    SmallMultiple(a, q - k, r - m);
  }

  /** More numbers than there are values: two of them are the same. */
  lemma {:induction false} Repeats(xs: seq<int>, lo: int, n: nat) returns (i: nat, j: nat)
    requires |xs| > n && forall k :: 0 <= k < |xs| ==> lo <= xs[k] < lo + n
    ensures i < j < |xs| && xs[i] == xs[j]
    decreases n
  {
    var k := |xs| - 1;
    assert lo <= xs[k] < lo + n;
    if m :| 0 <= m < k && xs[m] == xs[k] {
      i, j := m, k;
    } else {
      var ys := seq(k, m requires 0 <= m < k => if xs[m] == lo + n - 1 then xs[k] else xs[m]);
      i, j := Repeats(ys, lo, n - 1);
      assert ys[i] == ys[j];
    }
  }
}
