/** Quantisation by multiplying with a reciprocal (jcdctmgr.c), for every word size of
    at least 16 bits. */
module Quantizer {
  import opened Shifts

  const BLOCK := 64

  // ----- what quantisation is

  function Magnitude(x: int): nat {
    if x < 0 then -x else x
  }

  /** Division rounded to nearest, halves away from zero. */
  function Rounded(x: int, d: nat): int
    requires d > 0
  {
    var q := (Magnitude(x) + d / 2) / d;
    if x < 0 then 0 - q else q
  }

  lemma {:induction false} RoundedIsNearest(x: int, d: nat)
    requires d > 0
    ensures 2 * Magnitude(x - Rounded(x, d) * d) <= d
    ensures forall q: int {:trigger q * d} :: 2 * Magnitude(x - q * d) < d ==> q == Rounded(x, d)
  {
    var n := Magnitude(x) + d / 2;
    var r := Rounded(x, d);
    assert n == n / d * d + n % d;
    assert r * d == if x < 0 then 0 - n / d * d else n / d * d;
    forall q: int {:trigger q * d} | 2 * Magnitude(x - q * d) < d
      ensures q == r
    {
      MulMonotone(q + 1, r, d);
      MulMonotone(r + 1, q, d);
      assert (q + 1) * d == q * d + d && (r + 1) * d == r * d + d;
    }
  }

  // ----- words

  /** The signed word that has the bits of an unsigned one, and back. */
  function Signed(v: int, w: nat): int
    requires w > 0
  {
    if v >= Pow2(w - 1) then v - Pow2(w) else v
  }

  function Unsigned(v: int, w: nat): nat {
    v % Pow2(w)
  }

  lemma {:induction false} SignedAndBack(v: nat, w: nat)
    requires w > 0 && v < Pow2(w)
    ensures Unsigned(Signed(v, w), w) == v
  {
    var p := Pow2(w);
    hide Pow2;
    if v >= Pow2(w - 1) {
      assert v - p == (-1) * p + v;
      QuotientIs(v - p, p, -1);
      assert v - p == (v - p) / p * p + (v - p) % p;
    } else {
      QuotientIs(v, p, 0);
    }
  }

  // ----- why the multiplication divides

  lemma {:induction false} QuotientScaled(n: nat, d: nat, p: nat)
    requires d > 0
    ensures n / d * p * d + p <= (n + 1) * p <= (n / d + 1) * p * d
    ensures (n + 1) * p == n * p + p
  {
    var q := n / d;
    assert n == q * d + n % d;
    MulMonotone(q * d + 1, n + 1, p);
    MulMonotone(n + 1, (q + 1) * d, p);
    assert (q * d + 1) * p == q * p * d + p;
    assert (q + 1) * d * p == (q + 1) * p * d;
  }

  /** The reciprocal was rounded down, so the dividend is one more. */
  lemma {:induction false} RoundedDown(n: nat, d: nat, f: nat, e: nat, p: nat)
    requires d > 0 && p == f * d + e && e > 0 && e * (n + 1) <= p
    ensures (n + 1) * f / p == n / d
  {
    var shortfall: int := 0 - e;
    Scaled(n + 1, f, d, p, shortfall);
    assert shortfall * (n + 1) == 0 - e * (n + 1);
    MulMonotone(1, n + 1, e);
    QuotientScaled(n, d, p);
    Between(n / d, (n + 1) * f, d, p);
  }

  lemma {:induction false} Between(q: nat, a: nat, d: nat, p: nat)
    requires d > 0 && p > 0 && q * p * d <= a * d < (q + 1) * p * d
    ensures a / p == q
  {
    Cancel(q * p, a, d);
    CancelStrict(a, (q + 1) * p, d);
    QuotientIs(a, p, q);
  }

  lemma {:induction false} Scaled(m: nat, f: nat, d: nat, p: nat, e: int)
    requires f * d == p + e
    ensures m * f * d == m * p + e * m
  {
    assert m * f * d == m * (f * d);
    assert m * (p + e) == m * p + e * m;
  }

  lemma {:induction false} Cancel(a: int, b: int, d: nat)
    requires d > 0 && a * d <= b * d
    ensures a <= b
  {
    MulMonotone(b + 1, a, d);
    assert (b + 1) * d == b * d + d;
  }

  lemma {:induction false} CancelStrict(a: int, b: int, d: nat)
    requires d > 0 && a * d < b * d
    ensures a < b
  {
    MulMonotone(b, a, d);
  }

  /** The reciprocal was rounded up. */
  lemma {:induction false} RoundedUp(n: nat, d: nat, f: nat, e: nat, p: nat)
    requires d > 0 && f * d == p + e && e * n < p
    ensures p > 0 && n * f / p == n / d
  {
    Scaled(n, f, d, p, e);
    MulMonotone(0, n, e);
    QuotientScaled(n, d, p);
    Between(n / d, n * f, d, p);
  }

  lemma {:induction false} OddFactor(f: nat, d: nat, r: nat)
    requires f % 2 == 1 && f * d == Pow2(r)
    ensures f == 1
    decreases r
  {
    if r == 0 {
      MulMonotone(2, f, d);
      MulMonotone(1, d, f);
    } else {
      var h := d / 2;
      assert f == 2 * (f / 2) + 1 && d == 2 * h + d % 2;
      assert f * d == 2 * (f / 2 * d) + d;
      assert f * (2 * h) == 2 * (f * h);
      OddFactor(f, h, r - 1);
    }
  }

  // ----- the reciprocal tables

  /** The highest bit of a 16-bit number, counted from 1, by binary search. */
  method Flss(val: nat) returns (bit: nat)
    requires val < 0x10000
    ensures val == 0 ==> bit == 0
    ensures val > 0 ==> 1 <= bit <= 16 && Pow2(bit - 1) <= val < Pow2(bit)
  {
    hide Pow2, Shl;
    bit := 16;
    if val == 0 {
      return 0;
    }
    var v := val;
    ShiftedMore(val, 0);
    if v < 0x100 {
      bit := bit - 8;
      v := v * 0x100;
    }
    ShiftedMore(val, 16 - bit);
    if v < 0x1000 {
      bit := bit - 4;
      v := v * 0x10;
    }
    ShiftedMore(val, 16 - bit);
    if v < 0x4000 {
      bit := bit - 2;
      v := v * 4;
    }
    ShiftedMore(val, 16 - bit);
    if v < 0x8000 {
      bit := bit - 1;
      v := v * 2;
    }
    HighBit(val, 16 - bit);
  }

  lemma {:induction false} ShiftedMore(val: nat, k: nat)
    ensures k == 0 ==> Shl(val, k) == val
    ensures Shl(val, k + 8) == Shl(val, k) * 0x100 && Shl(val, k + 4) == Shl(val, k) * 0x10
    ensures Shl(val, k + 2) == Shl(val, k) * 4 && Shl(val, k + 1) == Shl(val, k) * 2
  {
    assert Shl(val, k + 2) == 2 * Shl(val, k + 1);
    assert Shl(val, k + 4) == 2 * Shl(val, k + 3) && Shl(val, k + 3) == 2 * Shl(val, k + 2);
    ShlByte(val, k);
  }

  lemma {:induction false} HighBit(val: nat, k: nat)
    requires k <= 15 && 0x8000 <= Shl(val, k) < 0x10000
    ensures Pow2(15 - k) <= val < Pow2(16 - k)
  {
    ShlConstants(1);
    ShlShl(1, 15 - k, k);
    ShlShl(1, 16 - k, k);
    ShlMonotone(Pow2(15 - k), val, k);
    ShlMonotone(Pow2(16 - k), val, k);
  }

  function Quotient(m: nat, d: nat): nat
    requires d > 0
  {
    (m + d / 2) / d
  }

  /** With these values a multiplication and a shift by `exp` divide by `d`, rounding,
      every magnitude that leaves room for the correction; no word overflows. */
  ghost predicate DividesBy(recip: nat, corr: nat, exp: nat, d: nat, w: nat)
    requires d > 0
  {
    && recip < Pow2(w) && corr <= d / 2 + 1
    && forall m: nat {:trigger Quotient(m, d)} :: m + d / 2 + 1 < Pow2(w) ==>
         (m + corr) * recip / Pow2(exp) == Quotient(m, d)
  }

  lemma {:induction false} OneDivides(w: nat)
    requires w >= 16
    ensures DividesBy(1, 0, 0, 1, w)
  {
    Pow2Strict(0, w);
    Pow2Small();
    hide Shl, Pow2;
    forall m: nat
      ensures (m + 0) * 1 / 1 == Quotient(m, 1)
    {
    }
  }

  /** The three cases of the reciprocal. */
  lemma {:induction false} ReciprocalDivides(d: nat, w: nat, b: nat, fq: nat, fr: nat)
    requires w >= 16 && 2 <= d < 0x10000 && 1 <= b <= 15 && Pow2(b) <= d < Pow2(b + 1)
    requires Pow2(w + b) == fq * d + fr && fr < d
    ensures fr == 0 ==> DividesBy(fq / 2, d / 2, w + b - 1, d, w)
    ensures 0 < fr <= d / 2 ==> DividesBy(fq, d / 2 + 1, w + b, d, w)
    ensures fr > d / 2 ==> DividesBy(fq + 1, d / 2, w + b, d, w)
  {
    ReciprocalFits(d, w, b, fq, fr);
    PowerIsProduct(w, b);
    Pow2Double(b);
    hide Shl, Pow2;
    if fr == 0 {
      EvenReciprocal(d, w, b, fq);
    } else if fr <= d / 2 {
      forall m: nat | m + d / 2 + 1 < Pow2(w)
        ensures (m + (d / 2 + 1)) * fq / Pow2(w + b) == Quotient(m, d)
      {
        ProductBelow(fr, m + d / 2 + 1, Pow2(b), Pow2(w));
        RoundedDown(m + d / 2, d, fq, fr, Pow2(w + b));
      }
    } else {
      assert (fq + 1) * d == fq * d + d;
      forall m: nat | m + d / 2 + 1 < Pow2(w)
        ensures (m + d / 2) * (fq + 1) / Pow2(w + b) == Quotient(m, d)
      {
        ProductBelow(d - fr, m + d / 2, Pow2(b), Pow2(w));
        RoundedUp(m + d / 2, d, fq + 1, d - fr, Pow2(w + b));
      }
    }
  }

  lemma {:induction false} PowerIsProduct(w: nat, b: nat)
    ensures Pow2(w + b) == Pow2(b) * Pow2(w)
  {
    ShlShl(1, b, w);
    ShlIsProduct(Pow2(b), w);
  }

  lemma {:induction false} ProductBelow(x: nat, y: nat, p: nat, q: nat)
    requires x <= p && y < q && p > 0
    ensures x * y < p * q
  {
    MulMonotone(x, p, y);
    MulMonotone(y + 1, q, p);
    assert (y + 1) * p == y * p + p;
  }

  /** A reciprocal fits the word. */
  lemma {:induction false} ReciprocalFits(d: nat, w: nat, b: nat, fq: nat, fr: nat)
    requires w >= 16 && 1 <= b <= 15 && Pow2(b) <= d < Pow2(b + 1)
    requires Pow2(w + b) == fq * d + fr && fr < d
    ensures fr == 0 ==> fq / 2 < Pow2(w)
    ensures fr > 0 ==> fq + 1 < Pow2(w)
  {
    PowerIsProduct(w, b);
    Pow2Strict(b, w);
    Pow2Strict(0, b);
    Pow2Small();
    hide Shl, Pow2;
    QuotientFits(fq, d, fr, Pow2(b), Pow2(w));
  }

  lemma {:induction false} QuotientFits(f: nat, d: nat, e: nat, p: nat, q: nat)
    requires p * q == f * d + e && e < d && 2 <= p <= d && q > p
    ensures f <= q && (e > 0 ==> f + 1 < q)
  {
    MulMonotone(p, d, q);
    Cancel(f, q, d);
    assert (q - 1) * d == q * d - d;
    assert (p + 1) * (q - 1) == p * q - p + q - 1;
    MulMonotone(q - 1, f, d);
    MulMonotone(p + 1, d, q - 1);
  }

  lemma {:induction false} EvenFactor(f: nat, d: nat, r: nat)
    requires f * d == Pow2(r) && d < Pow2(r)
    ensures f % 2 == 0
  {
    hide Shl, Pow2;
    if f % 2 == 1 {
      OddFactor(f, d, r);
    }
  }

  lemma {:induction false} EvenReciprocal(d: nat, w: nat, b: nat, fq: nat)
    requires w >= 16 && d >= 2 && b >= 1 && d < Pow2(b + 1) && Pow2(w + b) == fq * d && fq / 2 < Pow2(w)
    ensures DividesBy(fq / 2, d / 2, w + b - 1, d, w)
  {
    hide Shl, Pow2;
    Pow2Strict(b + 1, w + b);
    EvenFactor(fq, d, w + b);
    Pow2Double(w + b - 1);
    var f := fq / 2;
    assert fq * d == 2 * (f * d);
    forall m: nat | m + d / 2 + 1 < Pow2(w)
      ensures (m + d / 2) * f / Pow2(w + b - 1) == Quotient(m, d)
    {
      RoundedUp(m + d / 2, d, f, 0, Pow2(w + b - 1));
    }
  }

  /** Entry `i` of the tables divides by `d`: reciprocals, corrections and shifts, each
      stored as a signed word. */
  ghost predicate Entry(dtbl: seq<int>, i: nat, d: nat, w: nat)
    requires |dtbl| == 4 * BLOCK && i < BLOCK && d > 0 && w > 0
  {
    var recip, corr, exp := dtbl[i], dtbl[i + BLOCK], dtbl[i + 3 * BLOCK] + w;
    exp >= 0 && DividesBy(Unsigned(recip, w), Unsigned(corr, w), exp, d, w)
  }

  method ComputeReciprocal(divisor: nat, dtbl: array<int>, i: nat, w: nat) returns (simd: bool)
    requires 1 <= divisor < 0x10000 && dtbl.Length == 4 * BLOCK && i < BLOCK && w >= 16
    modifies dtbl
    ensures Entry(dtbl[..], i, divisor, w)
    ensures simd <==> divisor > 1 && dtbl[i + 3 * BLOCK] + w > 16
    ensures forall k :: 0 <= k < 4 * BLOCK && k % BLOCK != i ==> dtbl[k] == old(dtbl[k])
  {
    hide Pow2, Shl, DividesBy;
    CorrectionFits(divisor, w);
    if divisor == 1 {
      OneDivides(w);
      RecipFits(1, 0, 0, divisor, w);
      StoreEntry(dtbl, i, divisor, w, 1, 0, 0);
      return false;
    }
    var bit := Flss(divisor);
    var b := bit - 1;
    BitOfDivisor(divisor, b);
    var r := w + b;
    var fq, fr := Divided(Pow2(r), divisor);
    ReciprocalDivides(divisor, w, b, fq, fr);
    var c := divisor / 2;
    if fr == 0 {
      fq := fq / 2;
      r := r - 1;
    } else if fr <= divisor / 2 {
      c := c + 1;
    } else {
      fq := fq + 1;
    }
    RecipFits(fq, c, r, divisor, w);
    StoreEntry(dtbl, i, divisor, w, fq, c, r);
    simd := r > 16;
  }

  method Divided(x: nat, d: nat) returns (fq: nat, fr: nat)
    requires d > 0
    ensures x == fq * d + fr && fr < d
  {
    fq, fr := x / d, x % d;
  }

  method StoreEntry(dtbl: array<int>, i: nat, ghost divisor: nat, w: nat, recip: nat, corr: nat, exp: nat)
    requires 1 <= divisor < 0x10000 && dtbl.Length == 4 * BLOCK && i < BLOCK && w >= 16
    requires DividesBy(recip, corr, exp, divisor, w) && recip < Pow2(w) && corr < Pow2(w)
    modifies dtbl
    ensures Entry(dtbl[..], i, divisor, w) && dtbl[i + 3 * BLOCK] == exp - w
    ensures forall k :: 0 <= k < 4 * BLOCK && k % BLOCK != i ==> dtbl[k] == old(dtbl[k])
  {
    hide Pow2, Shl, DividesBy;
    SignedAndBack(recip, w);
    SignedAndBack(corr, w);
    dtbl[i], dtbl[i + BLOCK], dtbl[i + 2 * BLOCK] := Signed(recip, w), Signed(corr, w), 1;
    dtbl[i + 3 * BLOCK] := exp - w;
  }

  lemma {:induction false} CorrectionFits(d: nat, w: nat)
    requires d < 0x10000 && w >= 16
    ensures d / 2 + 1 < Pow2(w)
  {
    ShlConstants(1);
    Pow2Strict(16, w);
  }

  lemma {:induction false} BitOfDivisor(d: nat, b: nat)
    requires 2 <= d < 0x10000 && b <= 15 && Pow2(b) <= d < Pow2(b + 1)
    ensures b >= 1
  {
    Pow2Small();
  }

  lemma {:induction false} RecipFits(recip: nat, corr: nat, exp: nat, d: nat, w: nat)
    requires d > 0 && DividesBy(recip, corr, exp, d, w)
    ensures recip < Pow2(w) && corr <= d / 2 + 1
  {
  }

  // ----- quantising a block

  /** A 16-bit coefficient. */
  function Short(v: int): int {
    (v + 0x8000) % 0x10000 - 0x8000
  }

  /** Samples of a signed word, but for the most negative one. */
  predicate Sample(x: int, w: nat)
    requires w > 0
  {
    Magnitude(x) < Pow2(w - 1)
  }

  lemma {:induction false} SampleFits(x: int, d: nat, w: nat)
    requires w >= 16 && 1 <= d < 0x10000 && Sample(x, w)
    ensures Magnitude(x) + d / 2 + 1 < Pow2(w)
  {
    ShlConstants(1);
    Pow2Strict(15, w - 1);
    Pow2Double(w - 1);
  }

  lemma {:induction false} QuotientBelow(m: nat, d: nat)
    requires d > 0
    ensures Quotient(m, d) <= m
  {
    var n := m + d / 2;
    assert n == n / d * d + n % d;
    MulMonotone(m + 1, n / d, d);
    MulMonotone(1, d, m);
    assert (m + 1) * d == m * d + d;
  }

  /** Neither the double-width product nor the quotient is cut off. */
  lemma {:induction false} NothingCut(x: int, recip: nat, corr: nat, exp: nat, d: nat, w: nat)
    requires w >= 16 && 1 <= d < 0x10000 && Sample(x, w) && DividesBy(recip, corr, exp, d, w)
    ensures var product := Unsigned((Magnitude(x) + corr) * recip, 2 * w);
            Signed(Unsigned(product / Pow2(exp), w), w) == Quotient(Magnitude(x), d)
  {
    var m := Magnitude(x);
    SampleFits(x, d, w);
    var q := Quotient(m, d);
    assert (m + corr) * recip / Pow2(exp) == q;
    PowerIsProduct(w, w);
    QuotientBelow(m, d);
    Pow2Double(w - 1);
    hide Shl, Pow2, Quotient, DividesBy;
    ProductBelow(recip, m + corr, Pow2(w), Pow2(w));
    assert recip * (m + corr) == (m + corr) * recip;
    SmallRemainder((m + corr) * recip, Pow2(2 * w));
    SmallRemainder(q, Pow2(w));
  }

  lemma {:induction false} SmallRemainder(v: nat, p: nat)
    requires v < p
    ensures v % p == v
  {
    QuotientIs(v, p, 0);
  }

  /** Every coefficient of a block, by the stored reciprocals. */
  method Quantize(divisors: array<int>, workspace: array<int>, output: array<int>, w: nat, ghost ds: seq<nat>)
    requires w >= 16 && divisors.Length == 4 * BLOCK && workspace.Length == output.Length == BLOCK
    requires output != divisors && output != workspace
    requires |ds| == BLOCK && forall i :: 0 <= i < BLOCK ==> 1 <= ds[i] < 0x10000 && Entry(divisors[..], i, ds[i], w)
    requires forall i :: 0 <= i < BLOCK ==> Sample(workspace[i], w)
    modifies output
    ensures forall i :: 0 <= i < BLOCK ==> output[i] == Short(Rounded(workspace[i], ds[i]))
  {
    hide Shl, Pow2, DividesBy, Sample, Unsigned, Signed;
    for i := 0 to BLOCK
      invariant forall k :: 0 <= k < i ==> output[k] == Short(Rounded(workspace[k], ds[k]))
    {
      var temp := workspace[i];
      assert Entry(divisors[..], i, ds[i], w);
      var recip, corr, shift := Unsigned(divisors[i], w), Unsigned(divisors[i + BLOCK], w), divisors[i + 3 * BLOCK];
      NothingCut(temp, recip, corr, shift + w, ds[i], w);
      if temp < 0 {
        temp := 0 - temp;
        var product := Unsigned((temp + corr) * recip, 2 * w);
        product := product / Pow2(shift + w);
        temp := Signed(Unsigned(product, w), w);
        temp := 0 - temp;
      } else {
        var product := Unsigned((temp + corr) * recip, 2 * w);
        product := product / Pow2(shift + w);
        temp := Signed(Unsigned(product, w), w);
      }
      output[i] := Short(temp);
    }
  }

  /** The branch for samples of more than eight bits divides outright. */
  method QuantizeByDivision(divisors: seq<nat>, workspace: array<int>, output: array<int>)
    requires |divisors| == workspace.Length == output.Length == BLOCK && output != workspace
    requires forall i :: 0 <= i < BLOCK ==> divisors[i] > 0
    modifies output
    ensures forall i :: 0 <= i < BLOCK ==> output[i] == Short(Rounded(workspace[i], divisors[i]))
  {
    for i := 0 to BLOCK
      invariant forall k :: 0 <= k < i ==> output[k] == Short(Rounded(workspace[k], divisors[k]))
    {
      var qval, temp := divisors[i], workspace[i];
      if temp < 0 {
        temp := 0 - temp + qval / 2;
        if temp >= qval {
          temp := temp / qval;
        } else {
          SmallQuotient(temp, qval);
          temp := 0;
        }
        temp := 0 - temp;
      } else {
        temp := temp + qval / 2;
        if temp >= qval {
          temp := temp / qval;
        } else {
          SmallQuotient(temp, qval);
          temp := 0;
        }
      }
      output[i] := Short(temp);
    }
  }

  lemma {:induction false} SmallQuotient(v: nat, d: nat)
    requires v < d
    ensures v / d == 0
  {
    QuotientIs(v, d, 0);
  }

  /** Both branches of the routine give the same block: set up the tables for some
      divisors, then quantise the same samples in both ways. */
  method QuantizersAgree(ds: seq<nat>, samples: seq<int>, w: nat) returns (byReciprocal: seq<int>, byDivision: seq<int>)
    requires w >= 16 && |ds| == |samples| == BLOCK
    requires forall i :: 0 <= i < BLOCK ==> 1 <= ds[i] < 0x10000 && Sample(samples[i], w)
    ensures byReciprocal == byDivision && |byDivision| == BLOCK
    ensures forall i :: 0 <= i < BLOCK ==> byDivision[i] == Short(Rounded(samples[i], ds[i]))
  {
    hide Sample, Entry, Rounded, Short;
    var dtbl := new int[4 * BLOCK](_ => 0);
    for i := 0 to BLOCK
      invariant forall k :: 0 <= k < i ==> Entry(dtbl[..], k, ds[k], w)
    {
      ghost var before := dtbl[..];
      var _ := ComputeReciprocal(ds[i], dtbl, i, w);
      forall k | 0 <= k < i
        ensures Entry(dtbl[..], k, ds[k], w)
      {
        OtherEntry(before, dtbl[..], k, ds[k], w);
      }
    }
    var workspace := new int[BLOCK](i requires 0 <= i < BLOCK => samples[i]);
    var output := new int[BLOCK](_ => 0);
    Quantize(dtbl, workspace, output, w, ds);
    byReciprocal := output[..];
    QuantizeByDivision(ds, workspace, output);
    byDivision := output[..];
  }

  lemma {:induction false} OtherEntry(before: seq<int>, after: seq<int>, k: nat, d: nat, w: nat)
    requires |before| == |after| == 4 * BLOCK && k < BLOCK && d > 0 && w > 0 && Entry(before, k, d, w)
    requires forall j :: 0 <= j < 4 * BLOCK && j % BLOCK == k ==> after[j] == before[j]
    ensures Entry(after, k, d, w)
  {
    hide DividesBy, Unsigned;
    assert k % BLOCK == k && (k + BLOCK) % BLOCK == k && (k + 3 * BLOCK) % BLOCK == k;
  }
}
