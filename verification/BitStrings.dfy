/** Numbers as strings of bits, most significant bit first. */
module BitStrings {
  import opened Shifts
  import opened ProbabilityTable

  function BitsOf(v: nat, n: nat): (bits: seq<Bit>)
    ensures |bits| == n
  {
    if n == 0 then [] else BitsOf(v / 2, n - 1) + [v % 2]
  }

  /** `v >> n` */
  function Shr(v: nat, n: nat): nat {
    if n == 0 then v else Shr(v / 2, n - 1)
  }

  lemma {:induction false} ShrBounds(v: nat, n: nat)
    ensures Shl(Shr(v, n), n) <= v < Shl(Shr(v, n) + 1, n)
  {
    if n > 0 {
      ShrBounds(v / 2, n - 1);
    }
  }

  lemma {:induction false} BitsPrefix(v: nat, n: nat, m: nat)
    requires m <= n
    ensures BitsOf(v, n)[..m] == BitsOf(Shr(v, n - m), m)
    decreases n
  {
    if m < n {
      BitsPrefix(v / 2, n - 1, m);
    }
  }

  lemma {:induction false} BitsInjective(a: nat, b: nat, n: nat)
    requires a < Pow2(n) && b < Pow2(n) && BitsOf(a, n) == BitsOf(b, n)
    ensures a == b
  {
    if n > 0 {
      var s, t := BitsOf(a / 2, n - 1), BitsOf(b / 2, n - 1);
      assert BitsOf(a, n)[..n - 1] == s && BitsOf(b, n)[..n - 1] == t;
      assert BitsOf(a, n)[n - 1] == a % 2 && BitsOf(b, n)[n - 1] == b % 2;
      BitsInjective(a / 2, b / 2, n - 1);
    }
  }

  /** A code further up the number line than a shorter one does not begin with it. */
  lemma {:induction false} NotPrefix(c1: nat, s1: nat, c2: nat, s2: nat)
    requires s1 <= s2 && c1 < Pow2(s1) && Shl(c1 + 1, s2 - s1) <= c2 < Pow2(s2)
    ensures !(BitsOf(c1, s1) <= BitsOf(c2, s2))
  {
    if BitsOf(c1, s1) <= BitsOf(c2, s2) {
      var top := Shr(c2, s2 - s1);
      BitsPrefix(c2, s2, s1);
      ShrBounds(c2, s2 - s1);
      ShlShl(1, s1, s2 - s1);
      ShlMonotone(Pow2(s1), top, s2 - s1);
      hide BitsOf, Shr, Shl;
      BitsInjective(c1, top, s1);
    }
  }

  // ----- numbers from bits

  function Number(bits: seq<Bit>): nat {
    if bits == [] then 0 else 2 * Number(bits[..|bits| - 1]) + bits[|bits| - 1]
  }

  lemma {:induction false} NumberOfBits(v: nat, n: nat)
    ensures Number(BitsOf(v, n)) == v % Pow2(n)
  {
    if n > 0 {
      NumberOfBits(v / 2, n - 1);
      assert BitsOf(v, n)[..n - 1] == BitsOf(v / 2, n - 1);
      Pow2Double(n - 1);
      HalfAndBit(v, Pow2(n - 1));
    }
  }

  lemma {:induction false} HalfAndBit(v: nat, p: nat)
    requires p > 0
    ensures v % (2 * p) == 2 * (v / 2 % p) + v % 2
  {
    var q, r := v / 2 / p, v / 2 % p;
    assert v / 2 == q * p + r;
    assert v == 2 * (q * p) + (2 * r + v % 2);
    assert 2 * (q * p) == q * (2 * p);
    assert (q + 1) * (2 * p) == q * (2 * p) + 2 * p;
    QuotientIs(v, 2 * p, q);
  }
}
