/** Byte strings read as binary fractions, and the 0xFF/0x00 byte stuffing of
    the entropy-coded segments (section B.1.1.5 of ITU-T T.81). */
module ByteCode {
  import opened Shifts

  type Byte = b: int | 0 <= b < 256

  function Repeat(b: Byte, n: nat): (s: seq<Byte>)
    ensures |s| == n
  {
    if n == 0 then [] else Repeat(b, n - 1) + [b]
  }

  /** The first `k` bytes of `u`, read as a big-endian number; the decoder reads
      zeros behind the last byte, so `u` is extended with zeros. */
  function Code(u: seq<Byte>, k: nat): nat {
    if k == 0 then 0
    else 256 * Code(u, k - 1) + (if k <= |u| then u[k - 1] else 0)
  }

  function Value(u: seq<Byte>): nat {
    Code(u, |u|)
  }

  lemma {:induction false} CodeOfPrefix(u: seq<Byte>, v: seq<Byte>, k: nat)
    requires k <= |u|
    ensures Code(u + v, k) == Code(u, k)
  {
    if k > 0 {
      CodeOfPrefix(u, v, k - 1);
    }
  }

  lemma {:induction false} ValueOfByte(u: seq<Byte>, b: Byte)
    ensures Value(u + [b]) == 256 * Value(u) + b
  {
    CodeOfPrefix(u, [b], |u|);
  }

  lemma {:induction false} ValueOfConcat(u: seq<Byte>, v: seq<Byte>)
    ensures Value(u + v) == Shl(Value(u), 8 * |v|) + Value(v)
  {
    if v == [] {
      assert u + v == u;
    } else {
      var w, b := v[..|v| - 1], v[|v| - 1];
      assert v == w + [b] && u + v == (u + w) + [b];
      ValueOfConcat(u, w);
      ValueOfByte(u + w, b);
      ValueOfByte(w, b);
      ShlByte(Value(u), 8 * |w|);
    }
  }

  lemma {:induction false} ValueOfZeros(n: nat)
    ensures Value(Repeat(0, n)) == 0
  {
    if n > 0 {
      ValueOfZeros(n - 1);
      ValueOfByte(Repeat(0, n - 1), 0);
    }
  }

  lemma {:induction false} ValueOfOnes(n: nat)
    ensures Value(Repeat(255, n)) == Pow2(8 * n) - 1
  {
    if n > 0 {
      ValueOfOnes(n - 1);
      ValueOfByte(Repeat(255, n - 1), 255);
      ShlByte(1, 8 * (n - 1));
    }
  }

  /** Adding one to a number that ends in a byte and stacked 0xFF bytes. */
  lemma {:induction false} CarryThroughOnes(u: seq<Byte>, b: Byte, n: nat)
    requires b < 255
    ensures Value(u + [b] + Repeat(255, n)) + 1 == Value(u + [b + 1] + Repeat(0, n))
  {
    ValueOfConcat(u + [b], Repeat(255, n));
    ValueOfConcat(u + [b + 1], Repeat(0, n));
    ValueOfOnes(n);
    ValueOfZeros(n);
    ValueOfByte(u, b);
    ValueOfByte(u, b + 1);
    ShlSum(Value(u + [b]), 1, 8 * n);
  }

  lemma {:induction false} RepeatFront(b: Byte, n: nat)
    ensures Repeat(b, n) + [b] == [b] + Repeat(b, n)
  {
    if n > 0 {
      RepeatFront(b, n - 1);
    }
  }

  /** Trailing zeros do not change what the decoder reads. */
  lemma {:induction false} CodeIgnoresTrailingZeros(u: seq<Byte>, n: nat, k: nat)
    ensures Code(u + Repeat(0, n), k) == Code(u, k)
  {
    if k > 0 {
      CodeIgnoresTrailingZeros(u, n, k - 1);
      if |u| < k <= |u| + n {
        RepeatAt(0, n, k - 1 - |u|);
      }
    }
  }

  lemma {:induction false} RepeatAt(b: Byte, n: nat, i: nat)
    requires i < n
    ensures Repeat(b, n)[i] == b
  {
    if i < n - 1 {
      RepeatAt(b, n - 1, i);
    }
  }

  lemma {:induction false} CodeBeyondEnd(u: seq<Byte>)
    ensures Code(u, |u| + 2) == Shl(Value(u), 16)
  {
    assert Code(u, |u| + 2) == 256 * Code(u, |u| + 1);
    ShlConstants(Value(u));
  }

  // ----- byte stuffing

  function Stuffed(b: Byte): seq<Byte> {
    if b == 255 then [255, 0] else [b]
  }

  function Stuff(u: seq<Byte>): seq<Byte> {
    if u == [] then [] else Stuffed(u[0]) + Stuff(u[1..])
  }

  lemma {:induction false} StuffConcat(u: seq<Byte>, v: seq<Byte>)
    ensures Stuff(u + v) == Stuff(u) + Stuff(v)
  {
    if u == [] {
      assert u + v == v;
    } else {
      assert (u + v)[1..] == u[1..] + v;
      StuffConcat(u[1..], v);
    }
  }

  lemma {:induction false} StuffByte(u: seq<Byte>, b: Byte)
    ensures Stuff(u + [b]) == Stuff(u) + Stuffed(b)
  {
    StuffConcat(u, [b]);
    assert Stuff([b]) == Stuffed(b) + Stuff([]);
  }

  /** A stuffed segment holds no marker: every 0xFF is followed by 0x00. */
  lemma {:induction false} StuffedSegmentHasNoMarker(u: seq<Byte>, i: nat)
    requires i < |Stuff(u)| && Stuff(u)[i] == 255
    ensures i + 1 < |Stuff(u)| && Stuff(u)[i + 1] == 0
  {
    var n := |Stuffed(u[0])|;
    if i >= n {
      StuffedSegmentHasNoMarker(u[1..], i - n);
    }
  }
}
