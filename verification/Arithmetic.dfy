// Division and powers of two, for packed words and bit tries.

module Arithmetic {
  lemma NoSmallMultiple(k: nat, d: int)
    ensures d >= 1 ==> k * d >= k
    ensures d <= -1 ==> k * d <= 0 - k
  {
    if d >= 1 {
      assert k * (d - 1) >= 0;
    } else if d <= -1 {
      assert k * (-1 - d) >= 0;
    }
  }

  lemma Peel(low: nat, k: nat, high: nat)
    requires low < k
    ensures (low + k * high) / k == high && (low + k * high) % k == low
  {
    var w := low + k * high;
    var d := w / k - high;
    assert k * d == k * (w / k) - k * high;
    NoSmallMultiple(k, d);
  }

  // Shifting twice is shifting by the sum.
  lemma DivDiv(w: nat, a: nat, b: nat)
    requires a > 0 && b > 0
    ensures a * b > 0 && w / a / b == w / (a * b)
  {
    var q1, r1 := w / a, w % a;
    var q, r2 := q1 / b, q1 % b;
    Regroup(a, b, q, r2, r1);
    assert w == a * q1 + r1 && q1 == b * q + r2;
    Peel(a * r2 + r1, a * b, q);
  }

  lemma Regroup(a: nat, b: nat, q: nat, r2: nat, r1: nat)
    requires r1 < a && r2 < b
    ensures a * (b * q + r2) + r1 == (a * r2 + r1) + a * b * q
    ensures 0 <= a * r2 + r1 < a * b
  {
    var x := b * q;
    assert a * (x + r2) == a * x + a * r2;
    assert a * x == a * b * q;
    NoSmallMultiple(a, b - r2);
    assert a * (b - r2) == a * b - a * r2;
  }

  // A quotient is fixed by its bounds.
  lemma Quotient(s: nat, p: nat, q: nat)
    requires p * q <= s < p * q + p
    ensures p > 0 && s / p == q
  {
    Peel(s - p * q, p, q);
  }

  lemma DivAdd(m: nat, p: nat, r: nat)
    requires p > 0
    ensures (m * p + r) / p == m + r / p
  {
    var q := r / p;
    assert p * (m + q) == m * p + p * q;
    Quotient(m * p + r, p, m + q);
  }

  function Pow2(k: nat): (p: nat)
    ensures p >= 1
  {
    if k == 0 then 1 else 2 * Pow2(k - 1)
  }

  lemma {:induction false} Pow2Add(a: nat, b: nat)
    ensures Pow2(a + b) == Pow2(a) * Pow2(b)
  {
    if a > 0 {
      Pow2Add(a - 1, b);
      assert 2 * (Pow2(a - 1) * Pow2(b)) == 2 * Pow2(a - 1) * Pow2(b);
    }
  }

  lemma {:induction false} Pow2Times256(k: nat)
    ensures Pow2(k + 8) == 0x100 * Pow2(k)
  {
    if k > 0 {
      Pow2Times256(k - 1);
    } else {
      assert Pow2(2) == 4 && Pow2(4) == 16 && Pow2(6) == 64;
    }
  }

  lemma {:induction false} Pow2Monotone(a: nat, b: nat)
    requires a <= b
    ensures Pow2(a) <= Pow2(b)
  {
    if a < b {
      Pow2Monotone(a, b - 1);
    }
  }

  // The position of the highest bit set.
  function Log2(x: nat): (k: nat)
    requires x > 0
    ensures Pow2(k) <= x < 2 * Pow2(k)
  {
    if x == 1 then 0 else 1 + Log2(x / 2)
  }
}
