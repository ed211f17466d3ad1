/** Decoding tables and symbols (jdhuff.c, jpeg_make_d_derived_tbl and jpeg_huff_decode;
    jdhuff.h, HUFF_DECODE): the lookahead table and the bit-sequential search both undo
    the canonical code. */
module DecodingTable {
  import opened Shifts
  import opened ProbabilityTable
  import opened BitStrings
  import opened CodeLengths
  import opened DerivedTable

  const LOOKAHEAD := 8
  const ENTRIES := 256
  const SENTINEL := 0xFFFFF
  const TOO_LONG := (LOOKAHEAD + 1) * 256

  /** By code length: the largest code, and what to add to a code to find its position. By
      the next eight bits: the length of the code they start with, and its symbol. */
  datatype DTable = DTable(maxcode: seq<int>, valoffset: seq<int>, lookup: seq<nat>, huffval: seq<int>)

  // ----- canonical codes by position

  /** The code of a position; see CodeAt. */
  function CodeNumber(sizes: seq<nat>, p: nat): nat
    requires Nondecreasing(sizes) && p < |sizes|
  {
    Shr(SpaceTo(sizes, p), LONGEST - sizes[p])
  }

  lemma {:induction false} ShrShl(v: nat, n: nat)
    ensures Shr(Shl(v, n), n) == v
  {
    if n > 0 {
      assert Shl(v, n) / 2 == Shl(v, n - 1);
      ShrShl(v, n - 1);
    }
  }

  lemma {:induction false} CodeIsNumber(sizes: seq<nat>, p: nat, c: nat)
    requires Nondecreasing(sizes) && p < |sizes| && CodeAt(sizes, p, c)
    ensures c == CodeNumber(sizes, p)
  {
    ShrShl(c, LONGEST - sizes[p]);
  }

  /** Table sizes that leave some code space have a canonical code everywhere. */
  predicate Codable(sizes: seq<nat>) {
    && Nondecreasing(sizes) && |sizes| <= 256 && Space(sizes) < Pow2(LONGEST)
    && forall p :: 0 <= p < |sizes| ==> CodeAt(sizes, p, CodeNumber(sizes, p))
  }

  /** Codes of one size are consecutive. */
  lemma {:induction false} Consecutive(sizes: seq<nat>, p: nat, q: nat)
    requires Codable(sizes) && p <= q < |sizes| && sizes[p] == sizes[q]
    ensures CodeNumber(sizes, q) == CodeNumber(sizes, p) + (q - p)
    decreases q
  {
    if p < q {
      hide CodeNumber, SpaceTo;
      assert sizes[p] <= sizes[q - 1] <= sizes[q];
      Consecutive(sizes, p, q - 1);
      assert CodeAt(sizes, q - 1, CodeNumber(sizes, q - 1));
      CodeGiven(sizes, q - 1, CodeNumber(sizes, q - 1));
      ShlInjective(CodeNumber(sizes, q - 1) + 1, CodeNumber(sizes, q), LONGEST - sizes[q]);
    }
  }

  lemma {:induction false} ShlInjective(v: nat, w: nat, n: nat)
    requires Shl(v, n) == Shl(w, n)
    ensures v == w
  {
    ShrShl(v, n);
    ShrShl(w, n);
  }

  /** A code read up to a shorter length exceeds all codes of that length. */
  lemma {:induction false} LongerExceeds(sizes: seq<nat>, q: nat, p: nat)
    requires Codable(sizes) && q < p < |sizes|
    ensures sizes[q] <= sizes[p] && CodeNumber(sizes, q) < Shr(CodeNumber(sizes, p), sizes[p] - sizes[q])
  {
    hide CodeNumber, SpaceTo, Shl;
    var c, d := CodeNumber(sizes, p), sizes[p] - sizes[q];
    LaterCode(sizes, q, p, CodeNumber(sizes, q), c);
    ShrBounds(c, d);
    if Shr(c, d) <= CodeNumber(sizes, q) {
      ShlMonotone(Shr(c, d) + 1, CodeNumber(sizes, q) + 1, d);
    }
  }

  /** The positions of one code length. */
  lemma {:induction false} PositionsOf(bits: seq<nat>, l: nat, top: nat)
    requires 1 <= l <= top < |bits| && top <= LONGEST
    ensures |Sizes(bits, l - 1)| + bits[l] == |Sizes(bits, l)| <= |Sizes(bits, top)|
    ensures forall p :: 0 <= p < |Sizes(bits, top)| ==>
              (Sizes(bits, top)[p] < l <==> p < |Sizes(bits, l - 1)|)
              && (Sizes(bits, top)[p] <= l <==> p < |Sizes(bits, l)|)
    decreases top
  {
    SizesOrdered(bits, l - 1);
    SizesOrdered(bits, l);
    SizesNext(bits, l);
    if l < top {
      PositionsOf(bits, l, top - 1);
      SizesNext(bits, top);
    }
  }

  // ----- bit-sequential decoding (Figure F.15)

  predicate LimitsAt(t: DTable, sizes: seq<nat>, from: nat, to: nat, l: nat)
    requires Nondecreasing(sizes) && |t.maxcode| == |t.valoffset| == LONGEST + 2 && l <= LONGEST && from <= to <= |sizes|
  {
    if from == to then t.maxcode[l] == -1
    else t.maxcode[l] == CodeNumber(sizes, to - 1) && t.valoffset[l] == from - CodeNumber(sizes, from)
  }

  predicate Limited(t: DTable, bits: seq<nat>, upto: nat) {
    && |bits| == LONGEST + 1 && Codable(Sizes(bits, LONGEST)) && upto <= LONGEST
    && |t.maxcode| == |t.valoffset| == LONGEST + 2
    && forall l :: 1 <= l <= upto ==>
         && |Sizes(bits, l - 1)| <= |Sizes(bits, l)| <= |Sizes(bits, LONGEST)|
         && LimitsAt(t, Sizes(bits, LONGEST), |Sizes(bits, l - 1)|, |Sizes(bits, l)|, l)
  }

  /** What the search needs to know: shorter readings are over the limit, the full code is
      not, and leads to its position. */
  lemma {:induction false} SearchStops(t: DTable, bits: seq<nat>, p: nat, l: nat)
    requires Limited(t, bits, LONGEST) && p < |Sizes(bits, LONGEST)| && 1 <= l
    requires l <= Sizes(bits, LONGEST)[p]
    ensures var sizes := Sizes(bits, LONGEST);
            var code := Shr(CodeNumber(sizes, p), sizes[p] - l);
            && l <= LONGEST
            && (l < sizes[p] ==> code > t.maxcode[l])
            && (l == sizes[p] ==> code <= t.maxcode[l] && code + t.valoffset[l] == p)
  {
    hide CodeNumber, SpaceTo, Sizes, CodeAt;
    var sizes := Sizes(bits, LONGEST);
    PositionsOf(bits, l, LONGEST);
    var from, to := |Sizes(bits, l - 1)|, |Sizes(bits, l)|;
    assert LimitsAt(t, sizes, from, to, l);
    if l < sizes[p] {
      if from < to {
        assert sizes[to - 1] == l;
        LongerExceeds(sizes, to - 1, p);
      }
    } else {
      assert from <= p < to && sizes[from] == l && sizes[to - 1] == l;
      Consecutive(sizes, from, p);
      Consecutive(sizes, p, to - 1);
    }
  }

  /** Figure F.15. */
  method FillLimits(bits: seq<nat>, huffcode: seq<nat>) returns (maxcode: seq<int>, valoffset: seq<int>)
    requires |bits| == LONGEST + 1 && Codable(Sizes(bits, LONGEST)) && |huffcode| >= |Sizes(bits, LONGEST)|
    requires forall p :: 0 <= p < |Sizes(bits, LONGEST)| ==> huffcode[p] == CodeNumber(Sizes(bits, LONGEST), p)
    ensures |maxcode| == |valoffset| == LONGEST + 2 && maxcode[LONGEST + 1] == SENTINEL
    ensures forall lookup, huffval :: Limited(DTable(maxcode, valoffset, lookup, huffval), bits, LONGEST)
  {
    hide CodeNumber, Codable, Sizes;
    maxcode, valoffset := seq(LONGEST + 2, _ => 0), seq(LONGEST + 2, _ => 0);
    var p := 0;
    NoSizes(bits);
    ghost var sizes := Sizes(bits, LONGEST);
    for l := 1 to LONGEST + 1
      invariant |maxcode| == |valoffset| == LONGEST + 2 && p == |Sizes(bits, l - 1)|
      invariant Limited(DTable(maxcode, valoffset, [], []), bits, l - 1)
    {
      PositionsOf(bits, l, LONGEST);
      ghost var before := DTable(maxcode, valoffset, [], []);
      if bits[l] != 0 {
        valoffset := valoffset[l := p - huffcode[p]];
        p := p + bits[l];
        maxcode := maxcode[l := huffcode[p - 1]];
      } else {
        maxcode := maxcode[l := -1];
      }
      LimitsKept(before, DTable(maxcode, valoffset, [], []), bits, l);
    }
    ghost var t := DTable(maxcode, valoffset, [], []);
    valoffset := valoffset[LONGEST + 1 := 0];
    maxcode := maxcode[LONGEST + 1 := SENTINEL];
    forall lookup, huffval
      ensures Limited(DTable(maxcode, valoffset, lookup, huffval), bits, LONGEST)
    {
      LimitsSame(t, DTable(maxcode, valoffset, lookup, huffval), bits);
    }
  }

  lemma {:induction false} LimitsKept(t: DTable, u: DTable, bits: seq<nat>, l: nat)
    requires 1 <= l <= LONGEST && Limited(t, bits, l - 1) && |u.maxcode| == |u.valoffset| == LONGEST + 2
    requires forall k :: 0 <= k < l ==> u.maxcode[k] == t.maxcode[k] && u.valoffset[k] == t.valoffset[k]
    requires |Sizes(bits, l - 1)| <= |Sizes(bits, l)| <= |Sizes(bits, LONGEST)|
    requires LimitsAt(u, Sizes(bits, LONGEST), |Sizes(bits, l - 1)|, |Sizes(bits, l)|, l)
    ensures Limited(u, bits, l)
  {
    hide CodeNumber, Codable, Sizes, Nondecreasing;
    assert Nondecreasing(Sizes(bits, LONGEST)) by {
      SizesOrdered(bits, LONGEST);
    }
    forall k | 1 <= k < l
      ensures LimitsAt(u, Sizes(bits, LONGEST), |Sizes(bits, k - 1)|, |Sizes(bits, k)|, k)
    {
      assert LimitsAt(t, Sizes(bits, LONGEST), |Sizes(bits, k - 1)|, |Sizes(bits, k)|, k);
    }
  }

  lemma {:induction false} LimitsSame(t: DTable, u: DTable, bits: seq<nat>)
    requires Limited(t, bits, LONGEST) && |u.maxcode| == |u.valoffset| == LONGEST + 2
    requires forall k :: 0 <= k <= LONGEST ==> u.maxcode[k] == t.maxcode[k] && u.valoffset[k] == t.valoffset[k]
    ensures Limited(u, bits, LONGEST)
  {
    hide CodeNumber, Codable, Sizes, Nondecreasing;
    SizesOrdered(bits, LONGEST);
    forall k | 1 <= k <= LONGEST
      ensures LimitsAt(u, Sizes(bits, LONGEST), |Sizes(bits, k - 1)|, |Sizes(bits, k)|, k)
    {
      assert LimitsAt(t, Sizes(bits, LONGEST), |Sizes(bits, k - 1)|, |Sizes(bits, k)|, k);
    }
  }

  // ----- the lookahead table

  /** Eight bits that start with the code of a position. */
  predicate Starts(sizes: seq<nat>, p: nat, x: nat)
    requires Nondecreasing(sizes) && p < |sizes|
  {
    sizes[p] <= LOOKAHEAD && Shr(x, LOOKAHEAD - sizes[p]) == CodeNumber(sizes, p)
  }

  predicate LookedUp(sizes: seq<nat>, huffval: seq<int>, upto: nat, entry: nat, x: nat)
    requires Nondecreasing(sizes) && upto <= |sizes| && |sizes| <= |huffval|
  {
    && (forall p :: 0 <= p < upto && Starts(sizes, p, x) ==> entry == 256 * sizes[p] + huffval[p])
    && ((forall p :: 0 <= p < upto ==> !Starts(sizes, p, x)) ==> entry == TOO_LONG)
  }

  lemma {:induction false} ShrShr(v: nat, m: nat, n: nat)
    ensures Shr(Shr(v, m), n) == Shr(v, m + n)
  {
    if m > 0 {
      ShrShr(v / 2, m - 1, n);
    }
  }

  /** Eight bits start with one code at most. */
  lemma {:induction false} StartsOnce(sizes: seq<nat>, q: nat, p: nat, x: nat)
    requires Nondecreasing(sizes) && Codable(sizes) && q < p < |sizes| && Starts(sizes, q, x)
    ensures !Starts(sizes, p, x)
  {
    hide CodeNumber, Codable;
    LongerExceeds(sizes, q, p);
    if Starts(sizes, p, x) {
      ShrShr(x, LOOKAHEAD - sizes[p], sizes[p] - sizes[q]);
    }
  }

  lemma {:induction false} ShrIs(x: nat, c: nat, d: nat)
    ensures Shr(x, d) == c <==> Shl(c, d) <= x < Shl(c + 1, d)
  {
    ShrBounds(x, d);
    hide Shr;
    if Shl(c, d) <= x < Shl(c + 1, d) {
      var s := Shr(x, d);
      if s < c {
        ShlMonotone(s + 1, c, d);
      }
      if c < s {
        ShlMonotone(c + 1, s, d);
      }
    }
  }

  /** The entry of a code stands for all that start with it. */
  lemma {:induction false} EntriesNext(sizes: seq<nat>, huffval: seq<int>, p: nat, entry: nat, was: nat, x: nat)
    requires Codable(sizes) && p < |sizes| <= |huffval| && LookedUp(sizes, huffval, p, was, x)
    requires entry == if Starts(sizes, p, x) then 256 * sizes[p] + huffval[p] else was
    ensures LookedUp(sizes, huffval, p + 1, entry, x)
  {
    hide CodeNumber, SpaceTo, Starts;
    if Starts(sizes, p, x) {
      forall q | 0 <= q < p
        ensures !Starts(sizes, q, x)
      {
        if Starts(sizes, q, x) {
          StartsOnce(sizes, q, p, x);
        }
      }
    }
  }

  /** The entries of one code. */
  method EnterCode(lookup: array<nat>, ghost sizes: seq<nat>, huffval: seq<int>, p: nat, l: nat, code: nat)
    requires lookup.Length == ENTRIES && Nondecreasing(sizes) && Codable(sizes) && p < |sizes| <= |huffval| && 0 <= huffval[p] < 256
    requires l == sizes[p] <= LOOKAHEAD && code == CodeNumber(sizes, p) && code < Pow2(l)
    requires forall x :: 0 <= x < ENTRIES ==> LookedUp(sizes, huffval, p, lookup[x], x)
    modifies lookup
    ensures forall x :: 0 <= x < ENTRIES ==> LookedUp(sizes, huffval, p + 1, lookup[x], x)
  {
    hide CodeNumber, Codable, LookedUp, Shl, Shr;
    var lookbits: nat, ctr: nat := Shl(code, LOOKAHEAD - l), Shl(1, LOOKAHEAD - l);
    ghost var from, was := lookbits, lookup[..];
    ShlSum(code, 1, LOOKAHEAD - l);
    InTable(code, l);
    while ctr > 0
      invariant ctr + lookbits == Shl(code + 1, LOOKAHEAD - l) && from <= lookbits
      invariant forall x :: 0 <= x < ENTRIES ==> lookup[x] == if from <= x < lookbits then 256 * l + huffval[p] else was[x]
    {
      lookup[lookbits] := 256 * l + huffval[p];
      lookbits := lookbits + 1;
      ctr := ctr - 1;
    }
    forall x | 0 <= x < ENTRIES
      ensures LookedUp(sizes, huffval, p + 1, lookup[x], x)
    {
      ShrIs(x, code, LOOKAHEAD - l);
      EntriesNext(sizes, huffval, p, lookup[x], was[x], x);
    }
  }

  lemma {:induction false} InTable(code: nat, l: nat)
    requires l <= LOOKAHEAD && code < Pow2(l)
    ensures Shl(code + 1, LOOKAHEAD - l) <= ENTRIES
  {
    ShlMonotone(code + 1, Pow2(l), LOOKAHEAD - l);
    ShlShl(1, l, LOOKAHEAD - l);
    ShlConstants(1);
  }

  // ----- the whole table

  predicate Decodes(t: DTable, bits: seq<nat>, huffval: seq<int>) {
    && WellShaped(bits, huffval) && Limited(t, bits, LONGEST) && t.maxcode[LONGEST + 1] == SENTINEL
    && t.huffval == huffval && |t.lookup| == ENTRIES
    && forall x :: 0 <= x < ENTRIES ==> LookedUp(Sizes(bits, LONGEST), huffval, |Sizes(bits, LONGEST)|, t.lookup[x], x)
  }

  /** Tables a decoder accepts; it does not mind repeated symbols. */
  predicate Decodable(bits: seq<nat>, huffval: seq<int>, max: int)
    requires WellShaped(bits, huffval)
  {
    SizesOrdered(bits, LONGEST);
    var sizes := Sizes(bits, LONGEST);
    |sizes| <= 256 && Space(sizes) < Pow2(LONGEST) && forall i :: 0 <= i < |sizes| ==> huffval[i] <= max
  }

  lemma {:induction false} CodesKnown(sizes: seq<nat>, huffcode: seq<nat>)
    requires Nondecreasing(sizes) && |sizes| <= 256 && Space(sizes) < Pow2(LONGEST) && |huffcode| >= |sizes|
    requires forall p :: 0 <= p < |sizes| ==> CodeAt(sizes, p, huffcode[p])
    ensures Codable(sizes)
    ensures forall p :: 0 <= p < |sizes| ==> huffcode[p] == CodeNumber(sizes, p) && huffcode[p] < Pow2(sizes[p])
  {
    hide CodeNumber, CodeAt, Space, Pow2;
    forall p | 0 <= p < |sizes|
      ensures huffcode[p] == CodeNumber(sizes, p) && huffcode[p] < Pow2(sizes[p])
    {
      CodeIsNumber(sizes, p, huffcode[p]);
      CodeFits(sizes, p, huffcode[p]);
    }
  }

  method FillLookup(bits: seq<nat>, huffval: seq<int>, huffcode: seq<nat>) returns (lookup: array<nat>)
    requires WellShaped(bits, huffval) && Codable(Sizes(bits, LONGEST)) && |Sizes(bits, LONGEST)| <= 256 && |huffcode| >= |Sizes(bits, LONGEST)|
    requires forall p :: 0 <= p < |Sizes(bits, LONGEST)| ==>
               huffcode[p] == CodeNumber(Sizes(bits, LONGEST), p) && huffcode[p] < Pow2(Sizes(bits, LONGEST)[p])
    ensures fresh(lookup) && lookup.Length == ENTRIES
    ensures forall x :: 0 <= x < ENTRIES ==> LookedUp(Sizes(bits, LONGEST), huffval, |Sizes(bits, LONGEST)|, lookup[x], x)
  {
    hide CodeNumber, Codable, Sizes, Nondecreasing, LookedUp, Pow2;
    ghost var sizes := Sizes(bits, LONGEST);
    SizesOrdered(bits, LONGEST);
    lookup := new nat[ENTRIES](_ => TOO_LONG);
    NothingLookedUp(sizes, huffval);
    NoSizes(bits);
    var p := 0;
    for l := 1 to LOOKAHEAD + 1
      invariant p == |Sizes(bits, l - 1)| <= |sizes| && (l > LOOKAHEAD ==> p == |Sizes(bits, LOOKAHEAD)|)
      invariant forall x :: 0 <= x < ENTRIES ==> LookedUp(sizes, huffval, p, lookup[x], x)
    {
      PositionsOf(bits, l, LONGEST);
      for i := 0 to bits[l]
        invariant p == |Sizes(bits, l - 1)| + i
        invariant forall x :: 0 <= x < ENTRIES ==> LookedUp(sizes, huffval, p, lookup[x], x)
      {
        EnterCode(lookup, sizes, huffval, p, l, huffcode[p]);
        p := p + 1;
      }
    }
    forall x | 0 <= x < ENTRIES
      ensures LookedUp(sizes, huffval, |sizes|, lookup[x], x)
    {
      OthersTooLong(bits, huffval, lookup[x], x);
    }
  }

  lemma {:induction false} NothingLookedUp(sizes: seq<nat>, huffval: seq<int>)
    requires Nondecreasing(sizes) && |sizes| <= |huffval|
    ensures forall x :: LookedUp(sizes, huffval, 0, TOO_LONG, x)
  {
  }

  lemma {:induction false} OthersTooLong(bits: seq<nat>, huffval: seq<int>, entry: nat, x: nat)
    requires |bits| == LONGEST + 1 && Nondecreasing(Sizes(bits, LONGEST)) && |Sizes(bits, LONGEST)| <= |huffval|
    requires |Sizes(bits, LOOKAHEAD)| <= |Sizes(bits, LONGEST)|
    requires LookedUp(Sizes(bits, LONGEST), huffval, |Sizes(bits, LOOKAHEAD)|, entry, x)
    ensures LookedUp(Sizes(bits, LONGEST), huffval, |Sizes(bits, LONGEST)|, entry, x)
  {
    hide Sizes, CodeNumber;
    PositionsOf(bits, LOOKAHEAD, LONGEST);
    assert forall p :: |Sizes(bits, LOOKAHEAD)| <= p < |Sizes(bits, LONGEST)| ==> !Starts(Sizes(bits, LONGEST), p, x);
  }

  /** The whole routine: what it accepts, and what its tables mean. */
  method MakeDecodingTable(bits: seq<nat>, huffval: seq<int>, isDC: bool) returns (ok: bool, t: DTable)
    requires WellShaped(bits, huffval)
    ensures ok <==> Decodable(bits, huffval, if isDC then 15 else 255)
    ensures ok ==> Decodes(t, bits, huffval)
  {
    hide Space, SpaceTo, Sizes, Pow2, CodeAt, Nondecreasing, Codable, LookedUp, CodeNumber;
    SizesOrdered(bits, LONGEST);
    t := DTable([], [], [], []);
    var huffsize, lastp, huffcode;
    ok, huffsize, lastp := ListSizes(bits);
    if !ok {
      return;
    }
    ghost var sizes := huffsize[..lastp];
    ok, huffcode := MakeCodes(huffsize, lastp);
    if !ok {
      return;
    }
    CodesKnown(sizes, huffcode[..]);
    var maxcode, valoffset := FillLimits(bits, huffcode[..]);
    var lookup := FillLookup(bits, huffval, huffcode[..]);
    t := DTable(maxcode, valoffset, lookup[..], huffval);
    if isDC {
      for i := 0 to lastp
        modifies {}
        invariant forall j :: 0 <= j < i ==> huffval[j] <= 15
      {
        if huffval[i] < 0 || huffval[i] > 15 {
          return false, t;
        }
      }
    }
  }
}