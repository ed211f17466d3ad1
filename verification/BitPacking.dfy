/** Bits packed into bytes: what both entropy coders' bit writers must produce. */
module BitPacking {
  import opened Shifts
  import opened ProbabilityTable
  import opened ByteCode
  import opened BitStrings

  function ByteBits(raw: seq<Byte>): (bits: seq<Bit>)
    ensures |bits| == 8 * |raw|
  {
    if raw == [] then [] else ByteBits(raw[..|raw| - 1]) + BitsOf(raw[|raw| - 1], 8)
  }

  lemma {:induction false} ByteBitsAppend(raw: seq<Byte>, b: Byte)
    ensures ByteBits(raw + [b]) == ByteBits(raw) + BitsOf(b, 8)
  {
    assert (raw + [b])[..|raw|] == raw;
  }

  lemma {:induction false} ByteBitsInjective(a: seq<Byte>, b: seq<Byte>)
    requires ByteBits(a) == ByteBits(b)
    ensures a == b
    decreases |a|
  {
    if a != [] {
      var m, n := |a| - 1, |b| - 1;
      hide BitsOf, ByteBits;
      ByteBitsAppend(a[..m], a[m]);
      ByteBitsAppend(b[..n], b[n]);
      assert a == a[..m] + [a[m]] && b == b[..n] + [b[n]];
      assert ByteBits(a)[..8 * m] == ByteBits(a[..m]) && ByteBits(b)[..8 * n] == ByteBits(b[..n]);
      assert ByteBits(a)[8 * m..] == BitsOf(a[m], 8) && ByteBits(b)[8 * n..] == BitsOf(b[n], 8);
      ByteBitsInjective(a[..m], b[..n]);
      Pow2Of8();
      BitsInjective(a[m], b[n], 8);
    }
  }

  lemma {:induction false} Pow2Of8()
    ensures Pow2(8) == 256
  {
    ShlConstants(1);
  }

  lemma {:induction false} StuffInjective(a: seq<Byte>, b: seq<Byte>)
    requires Stuff(a) == Stuff(b)
    ensures a == b
  {
    if a != [] && b != [] {
      assert Stuff(a)[0] == a[0] && Stuff(b)[0] == b[0];
      var n := |Stuffed(a[0])|;
      assert Stuff(a)[n..] == Stuff(a[1..]) && Stuff(b)[n..] == Stuff(b[1..]);
      StuffInjective(a[1..], b[1..]);
    }
  }

  function Ones(n: nat): (bits: seq<Bit>)
    ensures |bits| == n && forall i :: 0 <= i < n ==> bits[i] == 1
  {
    seq(n, _ => 1)
  }

  function Zeros(n: nat): (bits: seq<Bit>)
    ensures |bits| == n && forall i :: 0 <= i < n ==> bits[i] == 0
  {
    seq(n, _ => 0)
  }

  /** Ones fill the last byte. */
  function Padded(bits: seq<Bit>): (padded: seq<Bit>)
    ensures |padded| % 8 == 0 && |padded| < |bits| + 8 && bits <= padded
  {
    bits + Ones((8 - |bits| % 8) % 8)
  }

  /** The segment for a string of bits: padded, packed and stuffed. */
  ghost predicate Packs(output: seq<Byte>, bits: seq<Bit>) {
    exists raw :: output == Stuff(raw) && ByteBits(raw) == Padded(bits)
  }

  /** There is only one. */
  lemma {:induction false} PackedUnique(a: seq<Byte>, b: seq<Byte>, bits: seq<Bit>)
    requires Packs(a, bits) && Packs(b, bits)
    ensures a == b
  {
    var r :| a == Stuff(r) && ByteBits(r) == Padded(bits);
    var s :| b == Stuff(s) && ByteBits(s) == Padded(bits);
    ByteBitsInjective(r, s);
  }

  /** And it determines the bits, given how many there are. */
  lemma {:induction false} PackedDetermines(output: seq<Byte>, bits: seq<Bit>, other: seq<Bit>)
    requires Packs(output, bits) && Packs(output, other) && |bits| == |other|
    ensures bits == other
  {
    var r :| output == Stuff(r) && ByteBits(r) == Padded(bits);
    var s :| output == Stuff(s) && ByteBits(s) == Padded(other);
    StuffInjective(r, s);
    assert bits == Padded(bits)[..|bits|] && other == Padded(other)[..|bits|];
  }

  // ----- arithmetic on the bits of a number

  lemma {:induction false} BitsShifted(v: nat, n: nat, c: nat, s: nat)
    requires c < Pow2(s)
    ensures BitsOf(Shl(v, s) + c, n + s) == BitsOf(v, n) + BitsOf(c, s)
    decreases s
  {
    if s == 0 {
      assert BitsOf(v, n) + [] == BitsOf(v, n);
    } else {
      BitsShifted(v, n, c / 2, s - 1);
      var x := Shl(v, s) + c;
      assert x / 2 == Shl(v, s - 1) + c / 2 && x % 2 == c % 2;
    }
  }

  /** Only the low bits count. */
  lemma {:induction false} BitsOfRemainder(v: nat, m: nat, n: nat)
    requires n <= m
    ensures BitsOf(v % Pow2(m), n) == BitsOf(v, n)
    decreases n
  {
    if n > 0 {
      Pow2Double(m - 1);
      HalfOfRemainder(v, Pow2(m - 1));
      BitsOfRemainder(v / 2, m - 1, n - 1);
    }
  }

  lemma {:induction false} HalfOfRemainder(v: nat, p: nat)
    requires p > 0
    ensures v % (2 * p) / 2 == v / 2 % p && v % (2 * p) % 2 == v % 2
  {
    var q, r := v / (2 * p), v % (2 * p);
    assert v == (2 * p) * q + r;
    assert (2 * p) * q == 2 * (p * q);
    assert v / 2 == p * q + r / 2;
    assert r / 2 < p;
    QuotientIs(v / 2, p, q);
  }

  /** The first bits are those of the shifted number. */
  lemma {:induction false} BitsSplit(v: nat, n: nat, m: nat)
    requires m <= n
    ensures BitsOf(v, n) == BitsOf(Shr(v, m), n - m) + BitsOf(v, m)
    decreases m
  {
    if m == 0 {
      assert BitsOf(v, n) + [] == BitsOf(v, n);
    } else {
      BitsSplit(v / 2, n - 1, m - 1);
    }
  }

  /** Adding to low bits that are clear. */
  lemma {:induction false} BitsAdded(v: nat, x: nat, n: nat, k: nat)
    requires k <= n && x < Pow2(k) && BitsOf(v, k) == Zeros(k)
    ensures BitsOf(v + x, n) == BitsOf(v, n)[..n - k] + BitsOf(x, k)
    decreases k
  {
    if k == 0 {
      assert BitsOf(v, n)[..n] + [] == BitsOf(v, n);
    } else {
      assert BitsOf(v, k)[k - 1] == v % 2;
      assert BitsOf(v, k)[..k - 1] == BitsOf(v / 2, k - 1);
      BitsAdded(v / 2, x / 2, n - 1, k - 1);
      assert (v + x) / 2 == v / 2 + x / 2 && (v + x) % 2 == x % 2;
    }
  }
}
