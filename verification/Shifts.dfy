/** Left shift of unbounded numbers, and the powers of two it gives. */
module Shifts {

  /** `v << n` */
  function Shl(v: nat, n: nat): (r: nat)
    ensures r >= v
  {
    if n == 0 then v else 2 * Shl(v, n - 1)
  }

  function Pow2(n: nat): (p: nat)
    ensures p >= 1
  {
    Shl(1, n)
  }

  lemma {:induction false} ShlSum(v: nat, w: nat, n: nat)
    ensures Shl(v + w, n) == Shl(v, n) + Shl(w, n)
  {
    if n > 0 {
      ShlSum(v, w, n - 1);
    }
  }

  lemma {:induction false} ShlShl(v: nat, m: nat, n: nat)
    ensures Shl(Shl(v, m), n) == Shl(v, m + n)
  {
    if n > 0 {
      ShlShl(v, m, n - 1);
    }
  }

  lemma {:induction false} ShlMonotone(v: nat, w: nat, n: nat)
    ensures v <= w <==> Shl(v, n) <= Shl(w, n)
  {
    if n > 0 {
      ShlMonotone(v, w, n - 1);
    }
  }

  lemma {:induction false} ShlIsProduct(v: nat, n: nat)
    ensures Shl(v, n) == v * Pow2(n)
  {
    if n > 0 {
      ShlIsProduct(v, n - 1);
      assert v * (2 * Pow2(n - 1)) == 2 * (v * Pow2(n - 1));
    }
  }

  lemma {:induction false} ShlConstants(v: nat)
    ensures Shl(v, 0) == v && Shl(v, 5) == 32 * v && Shl(v, 8) == 0x100 * v
    ensures Shl(v, 11) == 0x800 * v && Shl(v, 15) == 0x8000 * v && Shl(v, 16) == 0x10000 * v
    ensures Shl(v, 19) == 0x80000 * v && Shl(v, 24) == 0x1000000 * v && Shl(v, 27) == 0x8000000 * v
  {
    ShlIsProduct(v, 5);
    ShlIsProduct(v, 8);
    ShlIsProduct(v, 11);
    ShlIsProduct(v, 15);
    ShlIsProduct(v, 16);
    ShlIsProduct(v, 19);
    ShlIsProduct(v, 24);
    ShlIsProduct(v, 27);
  }

  lemma {:induction false} ShlByte(v: nat, n: nat)
    ensures Shl(v, n + 8) == 256 * Shl(v, n) == Shl(256 * v, n)
  {
    ShlShl(v, 8, n);
    ShlShl(v, n, 8);
    ShlConstants(v);
    ShlConstants(Shl(v, n));
  }

  lemma {:induction false} Pow2Small()
    ensures Pow2(0) == 1 && Pow2(1) == 2
  {
  }

  lemma {:induction false} Pow2Double(e: nat)
    ensures Pow2(e + 1) == 2 * Pow2(e)
  {
  }

  lemma {:induction false} Pow2Strict(m: nat, n: nat)
    ensures m < n <==> Pow2(m) < Pow2(n)
  {
    if m > 0 && n > 0 {
      Pow2Strict(m - 1, n - 1);
    }
  }

  // ----- division

  lemma {:induction false} MulMonotone(a: int, b: int, d: nat)
    ensures a <= b ==> a * d <= b * d
  {
    if a <= b {
      assert (b - a) * d >= 0;
    }
  }

  lemma {:induction false} QuotientIs(x: int, d: nat, q: int)
    requires d > 0 && q * d <= x < (q + 1) * d
    ensures x / d == q
  {
    var r := x / d;
    assert x == r * d + x % d;
    MulMonotone(r + 1, q, d);
    MulMonotone(q + 1, r, d);
  }

  /** Dividing in two steps. */
  lemma {:induction false} DivDiv(x: int, m: nat, n: nat)
    requires m > 0 && n > 0
    ensures m * n > 0 && x / (m * n) == x / m / n
  {
    var a := x / m;
    var b := a / n;
    assert x == a * m + x % m && a == b * n + a % n;
    assert a * m == b * n * m + a % n * m;
    assert b * n * m == b * (m * n);
    assert 0 <= a % n * m <= (n - 1) * m by {
      MulMonotone(0, a % n, m);
      MulMonotone(a % n, n - 1, m);
    }
    assert (n - 1) * m == m * n - m;
    assert m * n > 0 by { MulMonotone(1, n, m); }
    assert (b + 1) * (m * n) == b * (m * n) + m * n;
    QuotientIs(x, m * n, b);
  }

  lemma {:induction false} QuotientBounds(x: nat, d: nat)
    requires d > 0
    ensures 0 <= x / d <= x && x / d * d <= x < x / d * d + d
  {
    assert x == x / d * d + x % d;
    MulMonotone(1, d, x / d);
  }
}
