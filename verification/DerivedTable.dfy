/** Encoding tables from code lengths (jchuff.c, jpeg_make_c_derived_tbl; Annex C of
    ITU-T T.81). */
module DerivedTable {
  import opened Shifts
  import opened ProbabilityTable
  import opened BitStrings
  import opened HuffmanTree
  import opened CodeLengths

  // ----- the code lengths in order (Figure C.1)

  function Repeated(l: nat, n: nat): (s: seq<nat>)
    ensures |s| == n && forall p :: 0 <= p < n ==> s[p] == l
  {
    if n == 0 then [] else Repeated(l, n - 1) + [l]
  }

  function Sizes(bits: seq<nat>, l: nat): seq<nat>
    requires l < |bits|
  {
    if l == 0 then [] else Sizes(bits, l - 1) + Repeated(l, bits[l])
  }

  predicate Nondecreasing(sizes: seq<nat>) {
    && (forall p :: 0 <= p < |sizes| ==> 1 <= sizes[p] <= LONGEST)
    && forall p, q :: 0 <= p < q < |sizes| ==> sizes[p] <= sizes[q]
  }

  lemma {:induction false} SizesOrdered(bits: seq<nat>, l: nat)
    requires l < |bits| && l <= LONGEST
    ensures Nondecreasing(Sizes(bits, l)) && forall p :: 0 <= p < |Sizes(bits, l)| ==> Sizes(bits, l)[p] <= l
    ensures bits[0] == 0 ==> |Sizes(bits, l)| == Total(bits, l)
  {
    if l > 0 {
      SizesOrdered(bits, l - 1);
    }
  }

  lemma {:induction false} SizesGrow(bits: seq<nat>, l: nat, m: nat)
    requires l <= m < |bits|
    ensures |Sizes(bits, l)| <= |Sizes(bits, m)|
    decreases m
  {
    if l < m {
      SizesGrow(bits, l, m - 1);
    }
  }

  // ----- how much of the code space the codes take

  /** In units of 2^-16. */
  function Space(sizes: seq<nat>): nat
    requires forall p :: 0 <= p < |sizes| ==> sizes[p] <= LONGEST
  {
    if sizes == [] then 0 else Space(sizes[..|sizes| - 1]) + Pow2(LONGEST - sizes[|sizes| - 1])
  }

  /** The space of the first `p` codes. */
  function SpaceTo(sizes: seq<nat>, p: nat): nat
    requires Nondecreasing(sizes) && p <= |sizes|
  {
    Space(sizes[..p])
  }

  lemma {:induction false} SpaceNext(sizes: seq<nat>, p: nat)
    requires Nondecreasing(sizes) && p < |sizes|
    ensures SpaceTo(sizes, p + 1) == SpaceTo(sizes, p) + Pow2(LONGEST - sizes[p])
  {
    assert sizes[..p + 1][..p] == sizes[..p];
  }

  lemma {:induction false} SpaceMonotone(sizes: seq<nat>, p: nat, q: nat)
    requires Nondecreasing(sizes) && p <= q <= |sizes|
    ensures SpaceTo(sizes, p) <= SpaceTo(sizes, q)
    decreases q
  {
    if p < q {
      SpaceMonotone(sizes, p, q - 1);
      SpaceNext(sizes, q - 1);
    }
  }

  lemma {:induction false} SpaceLast(sizes: seq<nat>)
    requires sizes != [] && forall p :: 0 <= p < |sizes| ==> sizes[p] <= LONGEST
    ensures var n := |sizes| - 1; Space(sizes) == Space(sizes[..n]) + Pow2(LONGEST - sizes[n])
  {
    hide Shl, Pow2;
  }

  lemma {:induction false} SpaceAppend(sizes: seq<nat>, l: nat)
    requires l <= LONGEST && forall p :: 0 <= p < |sizes| ==> sizes[p] <= LONGEST
    ensures Space(sizes + [l]) == Space(sizes) + Pow2(LONGEST - l)
  {
    hide *;
    var longer := sizes + [l];
    SpaceLast(longer);
    assert longer[..|sizes|] == sizes;
  }

  lemma {:induction false} SpaceOfRepeated(sizes: seq<nat>, l: nat, n: nat)
    requires l <= LONGEST && forall p :: 0 <= p < |sizes| ==> sizes[p] <= LONGEST
    ensures Space(sizes + Repeated(l, n)) == Space(sizes) + Shl(n, LONGEST - l)
  {
    hide Space;
    if n == 0 {
      assert sizes + Repeated(l, 0) == sizes;
      ShlZero(LONGEST - l);
    } else {
      var s := sizes + Repeated(l, n - 1);
      assert sizes + Repeated(l, n) == s + [l];
      hide Shl, Repeated;
      SpaceAppend(s, l);
      SpaceOfRepeated(sizes, l, n - 1);
      ShlSum(n - 1, 1, LONGEST - l);
    }
  }

  lemma {:induction false} ShlZero(n: nat)
    ensures Shl(0, n) == 0
  {
    if n > 0 {
      ShlZero(n - 1);
    }
  }

  lemma {:induction false} ShlTwice(v: nat, n: nat)
    ensures Shl(2 * v, n) == Shl(v, n + 1)
  {
    ShlShl(v, 1, n);
    assert Shl(v, 1) == 2 * v;
  }

  /** It is the Kraft sum of the lengths. */
  lemma {:induction false} SpaceIsKraft(bits: seq<nat>, l: nat)
    requires l <= LONGEST && l < |bits| && bits[0] == 0
    ensures Nondecreasing(Sizes(bits, l)) && Space(Sizes(bits, l)) == Shl(Kraft(bits, l), LONGEST - l)
  {
    SizesOrdered(bits, l);
    if l == 0 {
      ShlZero(LONGEST);
    } else {
      SpaceIsKraft(bits, l - 1);
      SpaceOfRepeated(Sizes(bits, l - 1), l, bits[l]);
      ShlTwice(Kraft(bits, l - 1), LONGEST - l);
      hide Space, Nondecreasing, Shl;
      ShlSum(2 * Kraft(bits, l - 1), bits[l], LONGEST - l);
    }
  }

  // ----- the derived table

  /** `c` is the canonical code of position `p`: the code space up to there, in the
      code's own length. */
  predicate CodeAt(sizes: seq<nat>, p: nat, c: nat)
    requires Nondecreasing(sizes) && p < |sizes|
  {
    Shl(c, LONGEST - sizes[p]) == SpaceTo(sizes, p)
  }

  predicate SymbolsOk(list: seq<int>, max: int) {
    && (forall p :: 0 <= p < |list| ==> 0 <= list[p] <= max)
    && forall p, q :: 0 <= p < q < |list| ==> list[p] != list[q]
  }

  predicate WellShaped(bits: seq<nat>, huffval: seq<int>) {
    && |bits| == LONGEST + 1 && (forall l :: 0 <= l <= LONGEST ==> bits[l] <= 255)
    && |huffval| == 256 && forall p :: 0 <= p < 256 ==> 0 <= huffval[p] <= 255
  }

  /** The tables that are accepted: at most 256 codes, some code space left over, and
      distinct symbols in range. */
  predicate Legal(bits: seq<nat>, huffval: seq<int>, max: int)
    requires WellShaped(bits, huffval)
  {
    SizesOrdered(bits, LONGEST);
    var sizes := Sizes(bits, LONGEST);
    |sizes| <= 256 && Space(sizes) < Pow2(LONGEST) && SymbolsOk(huffval[..|sizes|], max)
  }

  /** Lengths and codes by symbol; a symbol without a code has length 0. */
  predicate Derived(bits: seq<nat>, huffval: seq<int>, ehufco: seq<nat>, ehufsi: seq<nat>)
    requires WellShaped(bits, huffval)
  {
    SizesOrdered(bits, LONGEST);
    var sizes := Sizes(bits, LONGEST);
    |sizes| <= 256 && DerivedTo(sizes, huffval[..|sizes|], ehufco, ehufsi)
  }

  predicate DerivedTo(sizes: seq<nat>, list: seq<int>, ehufco: seq<nat>, ehufsi: seq<nat>)
    requires Nondecreasing(sizes) && |list| <= |sizes|
  {
    && |ehufco| == |ehufsi| == 256 && (forall p :: 0 <= p < |list| ==> 0 <= list[p] < 256)
    && (forall p :: 0 <= p < |list| ==> ehufsi[list[p]] == sizes[p] && CodeAt(sizes, p, ehufco[list[p]]))
    && forall s :: 0 <= s < 256 ==> (ehufsi[s] > 0 <==> s in list)
  }

  lemma {:induction false} DerivedNext(sizes: seq<nat>, list: seq<int>, ehufco: seq<nat>, ehufsi: seq<nat>, i: int, c: nat)
    requires Nondecreasing(sizes) && |list| < |sizes| && DerivedTo(sizes, list, ehufco, ehufsi)
    requires 0 <= i < 256 && CodeAt(sizes, |list|, c) && ehufsi[i] == 0
    ensures i !in list && DerivedTo(sizes, list + [i], ehufco[i := c], ehufsi[i := sizes[|list|]])
  {
    hide CodeAt;
    assert sizes[|list|] >= 1;
    forall p | 0 <= p < |list|
      ensures list[p] != i
    {
      assert list[p] in list;
    }
  }

  /** Figure C.1; fails if there are more than 256 codes. */
  method ListSizes(bits: seq<nat>) returns (ok: bool, huffsize: array<nat>, lastp: nat)
    requires |bits| == LONGEST + 1
    ensures ok <==> |Sizes(bits, LONGEST)| <= 256
    ensures ok ==> fresh(huffsize) && huffsize.Length == 257 && lastp == |Sizes(bits, LONGEST)|
                   && huffsize[..lastp] == Sizes(bits, LONGEST) && huffsize[lastp] == 0
  {
    hide Sizes;
    huffsize := new nat[257](_ => 0);
    var p := 0;
    ok, lastp := true, 0;
    NoSizes(bits);
    for l := 1 to LONGEST + 1
      invariant p <= 256 && p == |Sizes(bits, l - 1)| && huffsize[..p] == Sizes(bits, l - 1)
    {
      SizesNext(bits, l);
      if p + bits[l] > 256 {
        SizesGrow(bits, l, LONGEST);
        return false, huffsize, 0;
      }
      var i := bits[l];
      ghost var p0 := p;
      while i > 0
        invariant 0 <= i <= bits[l] && p <= 256 && p == p0 + (bits[l] - i)
        invariant huffsize[..p0] == Sizes(bits, l - 1) && forall q :: p0 <= q < p ==> huffsize[q] == l
      {
        huffsize[p] := l;
        p := p + 1;
        i := i - 1;
      }
      assert huffsize[p0..p] == Repeated(l, bits[l]);
      assert huffsize[..p] == huffsize[..p0] + huffsize[p0..p];
    }
    huffsize[p] := 0;
    lastp := p;
  }

  lemma {:induction false} NoSizes(bits: seq<nat>)
    requires |bits| > 0
    ensures Sizes(bits, 0) == []
  {
  }

  lemma {:induction false} SizesNext(bits: seq<nat>, l: nat)
    requires 0 < l < |bits|
    ensures Sizes(bits, l) == Sizes(bits, l - 1) + Repeated(l, bits[l])
  {
  }

  /** Figure C.2; fails if some length runs out of codes, all ones not being one. */
  method MakeCodes(huffsize: array<nat>, lastp: nat) returns (ok: bool, huffcode: array<nat>)
    requires huffsize.Length == 257 && lastp <= 256 && Nondecreasing(huffsize[..lastp]) && huffsize[lastp] == 0
    ensures ok <==> Space(huffsize[..lastp]) < Pow2(LONGEST)
    ensures ok ==> fresh(huffcode) && huffcode.Length == 257
                   && forall p :: 0 <= p < lastp ==> CodeAt(huffsize[..lastp], p, huffcode[p])
  {
    hide Space, SpaceTo, Nondecreasing, Shl, Pow2, CodeAt;
    ghost var sizes := huffsize[..lastp];
    SpaceOfAll(sizes);
    if lastp > 0 {
      SizeRange(sizes, 0);
      assert huffsize[0] == sizes[0];
    }
    huffcode := new nat[257](_ => 0);
    var code: nat, si, p := 0, huffsize[0], 0;
    StartOfSpace(sizes, si);
    while huffsize[p] != 0
      invariant p <= lastp && si <= LONGEST + 1 && (lastp > 0 ==> si >= 1)
      invariant p < lastp ==> si <= huffsize[p]
      invariant SpaceTo(sizes, p) < Pow2(LONGEST)
      invariant si <= LONGEST ==> Shl(code, LONGEST - si) == SpaceTo(sizes, p)
      invariant forall q :: 0 <= q < p ==> CodeAt(sizes, q, huffcode[q])
      decreases LONGEST + 1 - si
    {
      SizeRange(sizes, p);
      assert huffsize[p] == sizes[p];
      while huffsize[p] == si
        invariant p <= lastp && (p < lastp ==> si <= huffsize[p])
        invariant Shl(code, LONGEST - si) == SpaceTo(sizes, p)
        invariant forall q :: 0 <= q < p ==> CodeAt(sizes, q, huffcode[q])
        decreases lastp - p
      {
        assert huffsize[p] == sizes[p];
        CodeGiven(sizes, p, code);
        huffcode[p] := code;
        p := p + 1;
        code := code + 1;
        if p < lastp {
          SizeRange(sizes, p);
          assert huffsize[p] == sizes[p] && huffsize[p - 1] == sizes[p - 1];
        }
      }
      FullLevel(code, si);
      if code >= Shl(1, si) {
        SpaceMonotone(sizes, p, lastp);
        return false, huffcode;
      }
      code := 2 * code;
      si := si + 1;
      NextLevel(code / 2, si);
    }
    ok := true;
  }

  lemma {:induction false} SpaceOfAll(sizes: seq<nat>)
    requires Nondecreasing(sizes)
    ensures Space(sizes) == SpaceTo(sizes, |sizes|)
  {
    assert sizes[..|sizes|] == sizes;
  }

  lemma {:induction false} StartOfSpace(sizes: seq<nat>, si: nat)
    requires Nondecreasing(sizes) && si <= LONGEST
    ensures SpaceTo(sizes, 0) == 0 < Pow2(LONGEST) && Shl(0, LONGEST - si) == 0
  {
    ShlZero(LONGEST - si);
  }

  lemma {:induction false} SizeRange(sizes: seq<nat>, p: nat)
    requires Nondecreasing(sizes) && p < |sizes|
    ensures 1 <= sizes[p] <= LONGEST && (p > 0 ==> sizes[p - 1] <= sizes[p])
  {
  }

  lemma {:induction false} CodeGiven(sizes: seq<nat>, p: nat, code: nat)
    requires Nondecreasing(sizes) && p < |sizes| && Shl(code, LONGEST - sizes[p]) == SpaceTo(sizes, p)
    ensures CodeAt(sizes, p, code)
    ensures Shl(code + 1, LONGEST - sizes[p]) == SpaceTo(sizes, p + 1)
  {
    SpaceNext(sizes, p);
    hide Space, SpaceTo;
    ShlSum(code, 1, LONGEST - sizes[p]);
  }

  lemma {:induction false} FullLevel(code: nat, si: nat)
    requires si <= LONGEST
    ensures code >= Shl(1, si) <==> Shl(code, LONGEST - si) >= Pow2(LONGEST)
  {
    ShlShl(1, si, LONGEST - si);
    ShlMonotone(Shl(1, si), code, LONGEST - si);
  }

  lemma {:induction false} NextLevel(code: nat, si: nat)
    requires si > 0
    ensures si <= LONGEST ==> Shl(2 * code, LONGEST - si) == Shl(code, LONGEST - (si - 1))
  {
    if si <= LONGEST {
      ShlTwice(code, LONGEST - si);
    }
  }

  /** The whole routine: it accepts exactly the legal tables. */
  method MakeDerivedTable(bits: seq<nat>, huffval: seq<int>, isDC: bool)
    returns (ok: bool, ehufco: seq<nat>, ehufsi: seq<nat>)
    requires WellShaped(bits, huffval)
    ensures ok <==> Legal(bits, huffval, if isDC then 15 else 255)
    ensures ok ==> Derived(bits, huffval, ehufco, ehufsi)
  {
    hide Space, SpaceTo, Sizes, Shl, Pow2, CodeAt, Nondecreasing, DerivedTo;
    SizesOrdered(bits, LONGEST);
    ehufco, ehufsi := [], [];
    var huffsize, huffcode, lastp;
    ok, huffsize, lastp := ListSizes(bits);
    if !ok {
      return;
    }
    ghost var sizes := huffsize[..lastp];
    ok, huffcode := MakeCodes(huffsize, lastp);
    if !ok {
      return;
    }
    var maxsymbol := if isDC then 15 else 255;
    ehufco, ehufsi := seq(256, _ => 0), seq(256, _ => 0);
    NothingDerived(sizes, ehufco, ehufsi);
    for p := 0 to lastp
      modifies {}
      invariant SymbolsOk(huffval[..p], maxsymbol) && DerivedTo(sizes, huffval[..p], ehufco, ehufsi)
    {
      var i := huffval[p];
      SizeRange(sizes, p);
      ListedSymbols(sizes, huffval[..p], ehufco, ehufsi);
      assert huffval[..p + 1] == huffval[..p] + [i];
      if i < 0 || i > maxsymbol || ehufsi[i] != 0 {
        NotOk(huffval, p, lastp, maxsymbol);
        return false, ehufco, ehufsi;
      }
      DerivedNext(sizes, huffval[..p], ehufco, ehufsi, i, huffcode[p]);
      ehufco := ehufco[i := huffcode[p]];
      ehufsi := ehufsi[i := huffsize[p]];
    }
  }

  lemma {:induction false} NothingDerived(sizes: seq<nat>, ehufco: seq<nat>, ehufsi: seq<nat>)
    requires Nondecreasing(sizes) && |ehufco| == |ehufsi| == 256 && forall s :: 0 <= s < 256 ==> ehufsi[s] == 0
    ensures DerivedTo(sizes, [], ehufco, ehufsi)
  {
  }

  lemma {:induction false} ListedSymbols(sizes: seq<nat>, list: seq<int>, ehufco: seq<nat>, ehufsi: seq<nat>)
    requires Nondecreasing(sizes) && |list| <= |sizes| && DerivedTo(sizes, list, ehufco, ehufsi)
    ensures |ehufco| == |ehufsi| == 256 && forall s :: 0 <= s < 256 ==> (ehufsi[s] > 0 <==> s in list)
  {
  }

  lemma {:induction false} NotOk(huffval: seq<int>, p: nat, n: nat, max: int)
    requires p < n <= |huffval| && (huffval[p] < 0 || huffval[p] > max || huffval[p] in huffval[..p])
    ensures !SymbolsOk(huffval[..n], max)
  {
    if huffval[p] in huffval[..p] {
      var q :| 0 <= q < p && huffval[..p][q] == huffval[p];
      assert huffval[..n][q] == huffval[..n][p];
    } else {
      assert huffval[..n][p] == huffval[p];
    }
  }

  // ----- what the codes are good for

  /** The bits emitted for a symbol. */
  function CodeWord(ehufco: seq<nat>, ehufsi: seq<nat>, s: nat): seq<Bit>
    requires |ehufco| == |ehufsi| == 256 && s < 256
  {
    BitsOf(ehufco[s], ehufsi[s])
  }

  lemma {:induction false} CodeFits(sizes: seq<nat>, p: nat, c: nat)
    requires Nondecreasing(sizes) && p < |sizes| && CodeAt(sizes, p, c) && Space(sizes) < Pow2(LONGEST)
    ensures c + 1 < Pow2(sizes[p])
  {
    SpaceNext(sizes, p);
    SpaceMonotone(sizes, p + 1, |sizes|);
    SpaceOfAll(sizes);
    hide Space, SpaceTo, Nondecreasing;
    var d := LONGEST - sizes[p];
    ShlSum(c, 1, d);
    ShlShl(1, sizes[p], d);
    ShlMonotone(Pow2(sizes[p]), c + 1, d);
  }

  lemma {:induction false} LaterCode(sizes: seq<nat>, p: nat, q: nat, c1: nat, c2: nat)
    requires Nondecreasing(sizes) && p < q < |sizes| && CodeAt(sizes, p, c1) && CodeAt(sizes, q, c2)
    ensures sizes[p] <= sizes[q] && Shl(c1 + 1, sizes[q] - sizes[p]) <= c2
  {
    SpaceNext(sizes, p);
    SpaceMonotone(sizes, p + 1, q);
    hide Space, SpaceTo;
    var d := LONGEST - sizes[q];
    ShlSum(c1, 1, LONGEST - sizes[p]);
    ShlShl(c1 + 1, sizes[q] - sizes[p], d);
    ShlMonotone(Shl(c1 + 1, sizes[q] - sizes[p]), c2, d);
  }

  /** No code word of a derived table is the beginning of another one, and none is all
      ones. */
  lemma {:induction false} PrefixFree(bits: seq<nat>, huffval: seq<int>, max: int, ehufco: seq<nat>, ehufsi: seq<nat>, s: nat, t: nat)
    requires WellShaped(bits, huffval) && Legal(bits, huffval, max) && Derived(bits, huffval, ehufco, ehufsi)
    requires s < 256 && t < 256 && ehufsi[s] > 0 && ehufsi[t] > 0
    ensures s != t ==> !(CodeWord(ehufco, ehufsi, s) <= CodeWord(ehufco, ehufsi, t))
    ensures ehufsi[s] <= LONGEST && ehufco[s] + 1 < Pow2(ehufsi[s])
  {
    hide Space, Sizes, Shl, Pow2, CodeAt, Nondecreasing, BitsOf;
    SizesOrdered(bits, LONGEST);
    var sizes := Sizes(bits, LONGEST);
    var p :| 0 <= p < |sizes| && huffval[..|sizes|][p] == s;
    var q :| 0 <= q < |sizes| && huffval[..|sizes|][q] == t;
    CodeFits(sizes, p, ehufco[s]);
    CodeFits(sizes, q, ehufco[t]);
    SizeRange(sizes, p);
    if p < q {
      LaterCode(sizes, p, q, ehufco[s], ehufco[t]);
      NotPrefix(ehufco[s], ehufsi[s], ehufco[t], ehufsi[t]);
    } else if q < p {
      LaterCode(sizes, q, p, ehufco[t], ehufco[s]);
      NotPrefix(ehufco[t], ehufsi[t], ehufco[s], ehufsi[s]);
      PrefixSymmetric(CodeWord(ehufco, ehufsi, s), CodeWord(ehufco, ehufsi, t));
    }
  }

  lemma {:induction false} PrefixSymmetric(a: seq<Bit>, b: seq<Bit>)
    requires |b| <= |a| && !(b <= a)
    ensures !(a <= b)
  {
  }
}
