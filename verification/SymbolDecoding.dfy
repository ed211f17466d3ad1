/** Reading Huffman symbols from a bit stream (jdhuff.c, jpeg_huff_decode; jdhuff.h,
    HUFF_DECODE): whatever the stream, only entries of the table are used, and a stream
    that starts with a code word gives its symbol. */
module SymbolDecoding {
  import opened Shifts
  import opened ProbabilityTable
  import opened BitStrings
  import opened CodeLengths
  import opened DerivedTable
  import opened DecodingTable

  /** The stream starts with the code word of position `p`. */
  predicate Ahead(sizes: seq<nat>, p: nat, rest: seq<Bit>)
    requires Nondecreasing(sizes) && p < |sizes|
  {
    BitsOf(CodeNumber(sizes, p), sizes[p]) <= rest
  }

  /** What is left after `n` bits; behind the end there are zeros for ever. */
  function Behind(rest: seq<Bit>, n: nat): seq<Bit> {
    if n <= |rest| then rest[n..] else []
  }

  function Filled(rest: seq<Bit>, n: nat): (bits: seq<Bit>)
    ensures |bits| == n
  {
    if n <= |rest| then rest[..n] else rest + seq(n - |rest|, _ => 0 as Bit)
  }

  lemma {:induction false} NumberNext(rest: seq<Bit>, n: nat)
    ensures Number(Filled(rest, n + 1)) == 2 * Number(Filled(rest, n)) + (if n < |rest| then rest[n] else 0)
    ensures Number(Filled(rest, 0)) == 0
  {
    var longer := Filled(rest, n + 1);
    assert longer[..n] == Filled(rest, n);
  }

  lemma {:induction false} NumberBelow(bits: seq<Bit>)
    ensures Number(bits) < Pow2(|bits|)
  {
    if bits != [] {
      NumberBelow(bits[..|bits| - 1]);
      Pow2Double(|bits| - 1);
    }
  }

  /** The reading of `l` bits from the front of a code word. */
  lemma {:induction false} NumberAhead(code: nat, size: nat, rest: seq<Bit>, l: nat)
    requires BitsOf(code, size) <= rest && l <= size && code < Pow2(size)
    ensures Number(Filled(rest, l)) == Shr(code, size - l)
  {
    BitsPrefix(code, size, l);
    assert Filled(rest, l) == BitsOf(code, size)[..l];
    NumberOfBits(Shr(code, size - l), l);
    ShrFits(code, size, l);
    hide BitsOf, Shr, Shl, Number;
    QuotientIs(Shr(code, size - l), Pow2(l), 0);
  }

  lemma {:induction false} ShrFits(code: nat, size: nat, l: nat)
    requires l <= size && code < Pow2(size)
    ensures Shr(code, size - l) < Pow2(l)
  {
    ShrBounds(code, size - l);
    ShlShl(1, l, size - l);
    hide Shr;
    if Shr(code, size - l) >= Pow2(l) {
      ShlMonotone(Pow2(l), Shr(code, size - l), size - l);
    }
  }

  // ----- any stream

  /** `l` bits are read, and lie behind all codes of shorter length. */
  predicate BehindShorter(sizes: seq<nat>, n: nat, code: nat, l: nat)
    requires Nondecreasing(sizes) && n <= |sizes| && l <= LONGEST
  {
    Shl(code, LONGEST - l) >= SpaceTo(sizes, n)
  }

  /** If the search stops at `l`, it has found a position; otherwise `l` bits lie behind all
      codes of that length, too. */
  lemma {:induction false} SearchAt(t: DTable, bits: seq<nat>, code: nat, l: nat)
    requires Limited(t, bits, LONGEST) && 1 <= l <= LONGEST
    requires |Sizes(bits, l - 1)| <= |Sizes(bits, LONGEST)| && BehindShorter(Sizes(bits, LONGEST), |Sizes(bits, l - 1)|, code, l)
    ensures |Sizes(bits, l - 1)| <= |Sizes(bits, l)| <= |Sizes(bits, LONGEST)|
    ensures code <= t.maxcode[l] ==> |Sizes(bits, l - 1)| <= code + t.valoffset[l] < |Sizes(bits, l)|
    ensures code > t.maxcode[l] ==> BehindShorter(Sizes(bits, LONGEST), |Sizes(bits, l)|, code, l)
  {
    hide CodeNumber, SpaceTo, Sizes, Shl;
    var sizes := Sizes(bits, LONGEST);
    PositionsOf(bits, l, LONGEST);
    var from, to := |Sizes(bits, l - 1)|, |Sizes(bits, l)|;
    assert LimitsAt(t, sizes, from, to, l);
    if from < to {
      var first, last := CodeNumber(sizes, from), CodeNumber(sizes, to - 1);
      assert sizes[from] == l && sizes[to - 1] == l && CodeAt(sizes, from, first) && CodeAt(sizes, to - 1, last);
      Consecutive(sizes, from, to - 1);
      CodeGiven(sizes, to - 1, last);
      ShlMonotone(first, code, LONGEST - l);
      ShlMonotone(last + 1, code, LONGEST - l);
    }
  }

  lemma {:induction false} OneMoreBit(sizes: seq<nat>, n: nat, code: nat, l: nat, bit: nat)
    requires Nondecreasing(sizes) && n <= |sizes| && l < LONGEST && BehindShorter(sizes, n, code, l) && bit < 2
    ensures BehindShorter(sizes, n, 2 * code + bit, l + 1)
  {
    hide SpaceTo;
    ShlTwice(code, LONGEST - (l + 1));
    ShlMonotone(2 * code, 2 * code + bit, LONGEST - (l + 1));
  }

  /** Eight bits that start with no code lie behind all codes of up to eight bits. */
  lemma {:induction false} NoneStarts(bits: seq<nat>, x: nat, p: nat)
    requires |bits| == LONGEST + 1 && Codable(Sizes(bits, LONGEST)) && p <= |Sizes(bits, LONGEST)|
    requires forall q :: 0 <= q < p ==> Sizes(bits, LONGEST)[q] <= LOOKAHEAD && !Starts(Sizes(bits, LONGEST), q, x)
    ensures BehindShorter(Sizes(bits, LONGEST), p, x, LOOKAHEAD)
  {
    hide CodeNumber, SpaceTo, Sizes, Shl, Shr;
    var sizes := Sizes(bits, LONGEST);
    if p == 0 {
      StartOfSpace(sizes, 0);
    } else {
      var q := p - 1;
      NoneStarts(bits, x, q);
      var c, d := CodeNumber(sizes, q), LOOKAHEAD - sizes[q];
      assert !Starts(sizes, q, x) && CodeAt(sizes, q, c);
      CodeGiven(sizes, q, c);
      ShrIs(x, c, d);
      ShlShl(c, d, LONGEST - LOOKAHEAD);
      ShlShl(c + 1, d, LONGEST - LOOKAHEAD);
      ShlMonotone(Shl(c, d), x, LONGEST - LOOKAHEAD);
      ShlMonotone(Shl(c + 1, d), x, LONGEST - LOOKAHEAD);
    }
  }

  class BitReader {
    var rest: seq<Bit>
    var insufficientData: bool       // bits were missing

    constructor (bits: seq<Bit>)
      ensures rest == bits && !insufficientData
    {
      rest, insufficientData := bits, false;
    }

    method GetBit() returns (bit: Bit)
      modifies this
      ensures rest == Behind(old(rest), 1) && bit == if old(rest) == [] then 0 else old(rest)[0]
      ensures insufficientData == (old(insufficientData) || old(rest) == [])
    {
      bit := 0;
      if rest == [] {
        insufficientData := true;
      } else {
        bit, rest := rest[0], rest[1..];
      }
    }

    method GetBits(n: nat) returns (v: nat)
      modifies this
      ensures rest == Behind(old(rest), n) && v == Number(Filled(old(rest), n))
      ensures insufficientData == (old(insufficientData) || n > |old(rest)|)
    {
      v := 0;
      NumberNext(rest, 0);
      for i := 0 to n
        invariant rest == Behind(old(rest), i) && v == Number(Filled(old(rest), i))
        invariant insufficientData == (old(insufficientData) || i > |old(rest)|)
      {
        NumberNext(old(rest), i);
        var bit := GetBit();
        v := 2 * v + bit;
      }
    }

    /** One bit after the other, from `minBits` bits on. */
    method JpegHuffDecode(t: DTable, minBits: nat, ghost bits: seq<nat>) returns (symbol: nat)
      requires Decodes(t, bits, t.huffval) && 1 <= minBits <= LONGEST
      requires |Sizes(bits, minBits - 1)| <= |Sizes(bits, LONGEST)|
      requires BehindShorter(Sizes(bits, LONGEST), |Sizes(bits, minBits - 1)|, Number(Filled(rest, minBits)), minBits)
      modifies this
      ensures forall p :: 0 <= p < |Sizes(bits, LONGEST)| && minBits <= Sizes(bits, LONGEST)[p] && Ahead(Sizes(bits, LONGEST), p, old(rest)) ==>
                && symbol == t.huffval[p] && rest == Behind(old(rest), Sizes(bits, LONGEST)[p])
                && insufficientData == old(insufficientData)
      ensures symbol == 0 || symbol in t.huffval[..|Sizes(bits, LONGEST)|]
    {
      hide Sizes, CodeNumber, SpaceTo, Limited, LookedUp, BehindShorter, Ahead, Number, Shl, Filled;
      ghost var sizes := Sizes(bits, LONGEST);
      DecodingFacts(t, bits);
      var l := minBits;
      var code := GetBits(l);
      ReadingFits(old(rest), l);
      while code > t.maxcode[l]
        invariant 1 <= l <= LONGEST + 1 && code == Number(Filled(old(rest), l)) && rest == Behind(old(rest), l)
        invariant insufficientData == (old(insufficientData) || l > |old(rest)|)
        invariant code < Pow2(l) && |Sizes(bits, l - 1)| <= |sizes|
        invariant l <= LONGEST ==> BehindShorter(sizes, |Sizes(bits, l - 1)|, code, l)
        invariant forall p :: 0 <= p < |sizes| && minBits <= sizes[p] && Ahead(sizes, p, old(rest)) ==> l <= sizes[p]
        decreases LONGEST + 1 - l
      {
        SentinelStops(t, code, l);
        SearchAt(t, bits, code, l);
        forall p | 0 <= p < |sizes| && minBits <= sizes[p] && Ahead(sizes, p, old(rest))
          ensures l < sizes[p]
        {
          ReadAhead(t, bits, p, old(rest), l);
        }
        NumberNext(old(rest), l);
        ReadingFits(old(rest), l + 1);
        var bit := GetBit();
        if l < LONGEST {
          OneMoreBit(sizes, |Sizes(bits, l)|, code, l, bit);
        }
        code := 2 * code + bit;
        l := l + 1;
      }
      if l > LONGEST {
        return 0;
      }
      SearchAt(t, bits, code, l);
      symbol := t.huffval[code + t.valoffset[l]];
      forall p | 0 <= p < |sizes| && minBits <= sizes[p] && Ahead(sizes, p, old(rest))
        ensures symbol == t.huffval[p] && rest == Behind(old(rest), sizes[p]) && insufficientData == old(insufficientData)
      {
        ReadAhead(t, bits, p, old(rest), l);
      }
      assert symbol == t.huffval[..|sizes|][code + t.valoffset[l]];
    }

    /** The next symbol, by the lookahead table if eight bits are left and it helps. */
    method HuffDecode(t: DTable, ghost bits: seq<nat>) returns (symbol: nat)
      requires Decodes(t, bits, t.huffval)
      modifies this
      ensures forall p :: 0 <= p < |Sizes(bits, LONGEST)| && Ahead(Sizes(bits, LONGEST), p, old(rest)) ==>
                && symbol == t.huffval[p] && rest == Behind(old(rest), Sizes(bits, LONGEST)[p])
                && insufficientData == old(insufficientData)
      ensures symbol == 0 || symbol in t.huffval[..|Sizes(bits, LONGEST)|]
    {
      hide Sizes, CodeNumber, SpaceTo, Limited, LookedUp, BehindShorter, Ahead, Number, Starts, Codable;
      ghost var sizes := Sizes(bits, LONGEST);
      DecodingFacts(t, bits);
      if |rest| < LOOKAHEAD {
        FromTheFront(bits, Number(Filled(rest, 1)));
        symbol := JpegHuffDecode(t, 1, bits);
        return;
      }
      var look := Number(rest[..LOOKAHEAD]);
      LookFits(rest);
      var entry := t.lookup[look];
      EntryMeans(t, bits, look);
      forall p | 0 <= p < |sizes| && Ahead(sizes, p, rest)
        ensures sizes[p] <= |rest|
        ensures if sizes[p] <= LOOKAHEAD then Starts(sizes, p, look) else entry / 256 == LOOKAHEAD + 1
      {
        LookAhead(sizes, p, rest);
        AheadFits(sizes, p, rest);
      }
      if entry / 256 <= LOOKAHEAD {
        symbol := entry % 256;
        ghost var p :| 0 <= p < |sizes| && Starts(sizes, p, look);
        assert symbol == t.huffval[..|sizes|][p];
        var _ := GetBits(entry / 256);
      } else {
        BehindShort(bits, rest);
        symbol := JpegHuffDecode(t, LOOKAHEAD + 1, bits);
      }
    }
  }

  lemma {:induction false} FromTheFront(bits: seq<nat>, code: nat)
    requires |bits| == LONGEST + 1 && Nondecreasing(Sizes(bits, LONGEST))
    ensures |Sizes(bits, 0)| == 0 && BehindShorter(Sizes(bits, LONGEST), |Sizes(bits, 0)|, code, 1)
  {
    StartOfSpace(Sizes(bits, LONGEST), 0);
  }

  lemma {:induction false} LookFits(rest: seq<Bit>)
    requires |rest| >= LOOKAHEAD
    ensures Number(rest[..LOOKAHEAD]) < ENTRIES
  {
    NumberBelow(rest[..LOOKAHEAD]);
    ShlConstants(1);
  }

  lemma {:induction false} BehindShort(bits: seq<nat>, rest: seq<Bit>)
    requires |bits| == LONGEST + 1 && Codable(Sizes(bits, LONGEST)) && |rest| >= LOOKAHEAD
    requires forall q :: 0 <= q < |Sizes(bits, LONGEST)| ==> !Starts(Sizes(bits, LONGEST), q, Number(rest[..LOOKAHEAD]))
    ensures |Sizes(bits, LOOKAHEAD)| <= |Sizes(bits, LONGEST)|
    ensures BehindShorter(Sizes(bits, LONGEST), |Sizes(bits, LOOKAHEAD)|, Number(Filled(rest, LOOKAHEAD + 1)), LOOKAHEAD + 1)
  {
    hide Sizes, CodeNumber, SpaceTo, BehindShorter, Number, Starts;
    PositionsOf(bits, LOOKAHEAD, LONGEST);
    NoneStarts(bits, Number(rest[..LOOKAHEAD]), |Sizes(bits, LOOKAHEAD)|);
    assert Filled(rest, LOOKAHEAD) == rest[..LOOKAHEAD];
    NumberNext(rest, LOOKAHEAD);
    OneMoreBit(Sizes(bits, LONGEST), |Sizes(bits, LOOKAHEAD)|, Number(rest[..LOOKAHEAD]), LOOKAHEAD,
               if LOOKAHEAD < |rest| then rest[LOOKAHEAD] else 0);
  }

  lemma {:induction false} DecodingFacts(t: DTable, bits: seq<nat>)
    requires Decodes(t, bits, t.huffval)
    ensures Limited(t, bits, LONGEST) && Codable(Sizes(bits, LONGEST)) && Nondecreasing(Sizes(bits, LONGEST))
    ensures |t.maxcode| == |t.valoffset| == LONGEST + 2 && |t.huffval| == 256 && |Sizes(bits, LONGEST)| <= 256
    ensures |bits| == LONGEST + 1 && forall p :: 0 <= p < 256 ==> 0 <= t.huffval[p] < 256
  {
  }

  lemma {:induction false} ReadingFits(rest: seq<Bit>, l: nat)
    ensures Number(Filled(rest, l)) < Pow2(l)
  {
    NumberBelow(Filled(rest, l));
  }

  lemma {:induction false} SentinelStops(t: DTable, code: nat, l: nat)
    requires |t.maxcode| == LONGEST + 2 && t.maxcode[LONGEST + 1] == SENTINEL
    requires l <= LONGEST + 1 && code < Pow2(l) && code > t.maxcode[l]
    ensures l <= LONGEST
  {
    ShlConstants(1);
  }

  /** What the search meets when a code word is ahead. */
  lemma {:induction false} ReadAhead(t: DTable, bits: seq<nat>, p: nat, rest: seq<Bit>, l: nat)
    requires Limited(t, bits, LONGEST) && p < |Sizes(bits, LONGEST)| && Ahead(Sizes(bits, LONGEST), p, rest)
    requires 1 <= l <= Sizes(bits, LONGEST)[p]
    ensures var sizes, code := Sizes(bits, LONGEST), Number(Filled(rest, l));
            && l <= LONGEST && l <= |rest|
            && (l < sizes[p] ==> code > t.maxcode[l])
            && (l == sizes[p] ==> code <= t.maxcode[l] && code + t.valoffset[l] == p)
  {
    hide CodeNumber, SpaceTo, Sizes, Number, Filled;
    var sizes := Sizes(bits, LONGEST);
    NumberBound(sizes, p);
    NumberAhead(CodeNumber(sizes, p), sizes[p], rest, l);
    SearchStops(t, bits, p, l);
  }

  lemma {:induction false} NumberBound(sizes: seq<nat>, p: nat)
    requires Codable(sizes) && p < |sizes|
    ensures CodeNumber(sizes, p) < Pow2(sizes[p])
  {
    hide CodeNumber, Space;
    CodeFits(sizes, p, CodeNumber(sizes, p));
  }

  lemma {:induction false} NumberPrefix(bits: seq<Bit>, m: nat)
    requires m <= |bits|
    ensures Shr(Number(bits), |bits| - m) == Number(bits[..m])
    decreases |bits|
  {
    if m < |bits| {
      var shorter := bits[..|bits| - 1];
      NumberPrefix(shorter, m);
      assert shorter[..m] == bits[..m] && Number(bits) / 2 == Number(shorter);
    } else {
      assert bits[..m] == bits;
    }
  }

  /** Eight bits of the stream start with the code word ahead if that is short, and with no
      code word if it is long. */
  lemma {:induction false} LookAhead(sizes: seq<nat>, p: nat, rest: seq<Bit>)
    requires Codable(sizes) && p < |sizes| && Ahead(sizes, p, rest) && |rest| >= LOOKAHEAD
    ensures sizes[p] <= LOOKAHEAD ==> Starts(sizes, p, Number(rest[..LOOKAHEAD]))
    ensures sizes[p] > LOOKAHEAD ==> forall q :: 0 <= q < |sizes| ==> !Starts(sizes, q, Number(rest[..LOOKAHEAD]))
  {
    hide CodeNumber, SpaceTo, Number, BitsOf, Codable, Space;
    CodableShape(sizes);
    NumberBound(sizes, p);
    var look, code := rest[..LOOKAHEAD], CodeNumber(sizes, p);
    if sizes[p] <= LOOKAHEAD {
      NumberAhead(code, sizes[p], rest, sizes[p]);
      NumberPrefix(look, sizes[p]);
      assert look[..sizes[p]] == Filled(rest, sizes[p]);
    } else {
      forall q | 0 <= q < |sizes|
        ensures !Starts(sizes, q, Number(look))
      {
        if Starts(sizes, q, Number(look)) {
          assert look[..sizes[q]] == Filled(rest, sizes[q]);
          NumberPrefix(look, sizes[q]);
          NumberAhead(code, sizes[p], rest, sizes[q]);
          LongerExceeds(sizes, q, p);
        }
      }
    }
  }

  lemma {:induction false} AheadFits(sizes: seq<nat>, p: nat, rest: seq<Bit>)
    requires Nondecreasing(sizes) && p < |sizes| && Ahead(sizes, p, rest)
    ensures sizes[p] <= |rest|
  {
  }

  lemma {:induction false} CodableShape(sizes: seq<nat>)
    requires Codable(sizes)
    ensures Nondecreasing(sizes)
  {
  }

  /** What an entry of the lookahead table says. */
  lemma {:induction false} EntryMeans(t: DTable, bits: seq<nat>, x: nat)
    requires Decodes(t, bits, t.huffval) && x < ENTRIES
    ensures var sizes, entry := Sizes(bits, LONGEST), t.lookup[x];
            && |sizes| <= 256
            && (entry / 256 > LOOKAHEAD ==> entry / 256 == LOOKAHEAD + 1 && forall p :: 0 <= p < |sizes| ==> !Starts(sizes, p, x))
            && (entry / 256 <= LOOKAHEAD ==> exists p :: 0 <= p < |sizes| && Starts(sizes, p, x))
            && forall p :: 0 <= p < |sizes| && Starts(sizes, p, x) ==> entry / 256 == sizes[p] && entry % 256 == t.huffval[p]
  {
    hide CodeNumber, Sizes, Limited, Shr;
    DecodingFacts(t, bits);
    var sizes, entry := Sizes(bits, LONGEST), t.lookup[x];
    if p :| 0 <= p < |sizes| && Starts(sizes, p, x) {
      assert entry == 256 * sizes[p] + t.huffval[p];
    } else {
      assert entry == TOO_LONG;
    }
  }

  /** The value that `s` bits stand for (Figure F.12). */
  function HuffExtend(x: int, s: nat): int
    requires s > 0
  {
    if x < Pow2(s - 1) then x - Pow2(s) + 1 else x
  }
}
