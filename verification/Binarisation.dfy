/** Which binary decisions code a block of coefficients, and in which statistics
    bins: sections F.1.4.4 and G.1.3 of ITU-T T.81. Blocks are indexed in zigzag
    order; both coders go through the same zigzag table. */
module Binarisation {
  import opened Shifts
  import opened ProbabilityTable
  import opened IntervalCoder

  type Coef = x: int | -32768 <= x < 32768
  type Block = b: seq<Coef> | |b| == 64 witness seq(64, _ => 0)

  datatype Area = DcArea(tbl: nat) | AcArea(tbl: nat)

  function BinAt(area: Area, offset: nat): Bin {
    match area
    case DcArea(tbl) => Dc(tbl, offset)
    case AcArea(tbl) => Ac(tbl, offset)
  }

  function Choose(area: Area, offset: nat, bit: Bit): Decision {
    Decision(BinAt(area, offset), bit)
  }

  function Abs(x: int): nat {
    if x < 0 then -x else x
  }

  function SignBit(x: int): Bit {
    if x < 0 then 1 else 0
  }

  /** The point transform of an AC coefficient: division rounding towards zero. */
  function PointAc(x: int, al: nat): (r: int)
    ensures Abs(r) <= Abs(x) && (r != 0 ==> (r < 0 <==> x < 0))
  {
    QuotientBounds(Abs(x), Pow2(al));
    var q: int := Abs(x) / Pow2(al);
    if x < 0 then -q else q
  }

  /** The point transform of a DC coefficient: an arithmetic right shift. */
  function PointDc(x: int, al: nat): int {
    x / Pow2(al)
  }

  /** What a decoder knows of an AC coefficient after its scan at precision `al`. */
  function ApproxAc(x: int, al: nat): int {
    PointAc(x, al) * Pow2(al)
  }

  /** What a decoder knows of a DC coefficient after its scan at precision `al`. */
  function ApproxDc(x: int, al: nat): int {
    PointDc(x, al) * Pow2(al)
  }

  lemma {:induction false} ApproxAcInRange(x: Coef, al: nat)
    ensures -32768 <= ApproxAc(x, al) < 32768
    ensures ApproxAc(x, al) == 0 <==> PointAc(x, al) == 0
  {
    var p := Pow2(al);
    assert Abs(x) == Abs(x) / p * p + Abs(x) % p;
    MulMonotone(1, Abs(x) / p, p);
    assert (-(Abs(x) / p)) * p == -(Abs(x) / p * p);
  }

  /** One refinement step adds the next bit of the magnitude, with the sign. */
  lemma {:induction false} ApproxAcRefines(x: Coef, al: nat)
    ensures var v, old_, p: int := Abs(PointAc(x, al)), ApproxAc(x, al + 1), Pow2(al);
            && Abs(PointAc(x, al + 1)) == v / 2
            && (old_ != 0 <==> v > 1)
            && (old_ != 0 ==> (old_ < 0 <==> x < 0))
            && ApproxAc(x, al) == old_ + (if v % 2 == 0 then 0 else if x < 0 then -p else p)
  {
    PointAcHalves(x, al);
    ApproxAcIs(x, al);
    ApproxAcIs(x, al + 1);
    Pow2Double(al);
    hide PointAc, ApproxAc, Pow2;
    NextMultiple(Abs(PointAc(x, al)), Pow2(al));
  }

  lemma {:induction false} PointAcHalves(x: int, al: nat)
    ensures Abs(PointAc(x, al + 1)) == Abs(PointAc(x, al)) / 2
  {
    Pow2Double(al);
    DivDiv(Abs(x), Pow2(al), 2);
  }

  lemma {:induction false} ApproxAcIs(x: int, al: nat)
    ensures ApproxAc(x, al) == if x < 0 then 0 - Abs(PointAc(x, al)) * Pow2(al) else Abs(PointAc(x, al)) * Pow2(al)
  {
    hide Pow2;
    var q: int, p: int := Abs(x) / Pow2(al), Pow2(al);
    assert (-q) * p == -(q * p);
  }

  /** What is not known of a coefficient is less than 2^al, towards zero for AC and downwards
      for DC. */
  lemma {:induction false} ApproxError(x: int, al: nat)
    ensures Abs(ApproxAc(x, al)) <= Abs(x) < Abs(ApproxAc(x, al)) + Pow2(al)
    ensures ApproxAc(x, al) != 0 ==> (ApproxAc(x, al) < 0 <==> x < 0)
    ensures ApproxDc(x, al) <= x < ApproxDc(x, al) + Pow2(al)
  {
    ApproxAcIs(x, al);
    Truncated(x, Pow2(al));
    Truncated(Abs(x), Pow2(al));
    assert Abs(PointAc(x, al)) == Abs(x) / Pow2(al);
    hide PointAc, ApproxAc, Pow2;
  }

  lemma {:induction false} Truncated(x: int, p: int)
    requires p > 0
    ensures x / p * p <= x < x / p * p + p && (x >= 0 ==> x / p * p >= 0)
  {
    assert x == x / p * p + x % p;
    MulMonotone(0, x / p, p);
  }

  lemma {:induction false} PointAtZero(x: int)
    ensures PointAc(x, 0) == PointDc(x, 0) == x
  {
    assert Pow2(0) == 1;
  }

  lemma {:induction false} NextMultiple(v: int, p: int)
    requires v >= 0 && p > 0
    ensures v * p == v / 2 * (2 * p) + (if v % 2 == 0 then 0 else p)
    ensures v / 2 * (2 * p) > 0 <==> v > 1
    ensures v / 2 * (2 * p) >= 0
  {
    var w: int := v / 2;
    assert v == 2 * w + v % 2;
    assert v * p == (2 * w) * p + v % 2 * p;
    MulMonotone(1, w, 2 * p);
  }

  // ----- magnitudes (Figures F.8 and F.9)

  /** The highest power of two in `v`. */
  function TopBit(v: nat): (m: nat)
    requires v > 0
    ensures m <= v < 2 * m
  {
    if v == 1 then 1 else 2 * TopBit(v / 2)
  }

  function Category(area: Area, st: nat, v: nat): (ds: seq<Decision>)
    requires v > 0
    ensures ds != []
    decreases v
  {
    if v == 1 then [Choose(area, st, 0)]
    else [Choose(area, st, 1)] + Category(area, st + 1, v / 2)
  }

  function CategoryEnd(st: nat, v: nat): (end: nat)
    requires v > 0
    ensures end >= st
    decreases v
  {
    if v == 1 then st else CategoryEnd(st + 1, v / 2)
  }

  lemma {:induction false} CategoryEndBound(st: nat, v: nat, e: nat)
    requires 0 < v < Pow2(e + 1)
    ensures CategoryEnd(st, v) <= st + e
    decreases v
  {
    if v > 1 {
      assert e > 0;
      CategoryEndBound(st + 1, v / 2, e - 1);
    }
  }

  predicate Fits(area: Area, offset: nat) {
    InArea(BinAt(area, offset))
  }

  function Pattern(area: Area, st: nat, v: nat, m: nat): seq<Decision> {
    if m <= 1 then []
    else [Choose(area, st, v / (m / 2) % 2)] + Pattern(area, st, v, m / 2)
  }

  // ----- DC differences (Figures F.4 to F.9, Table F.4)

  /** One component's coding parameters: its tables, the conditioning bounds
      (1 << L) >> 1 and (1 << U) >> 1, and the conditioning index Kx. */
  datatype Component = Component(dcTbl: nat, acTbl: nat, low: nat, high: nat, kx: nat)

  function DcMagnitude(comp: Component, st: nat, v: nat): seq<Decision> {
    if v == 0 then [Choose(DcArea(comp.dcTbl), st, 0)]
    else [Choose(DcArea(comp.dcTbl), st, 1)]
         + (Category(DcArea(comp.dcTbl), 20, v)
            + Pattern(DcArea(comp.dcTbl), CategoryEnd(20, v) + 14, v, TopBit(v)))
  }

  function DcDecisions(comp: Component, context: nat, diff: int): seq<Decision> {
    if diff == 0 then [Choose(DcArea(comp.dcTbl), context, 0)]
    else [Choose(DcArea(comp.dcTbl), context, 1), Choose(DcArea(comp.dcTbl), context + 1, SignBit(diff))]
         + DcMagnitude(comp, context + 2 + SignBit(diff), Abs(diff) - 1)
  }

  /** The conditioning category a difference establishes for the next block. */
  function DcContext(comp: Component, diff: int): (context: nat)
    ensures context in {0, 4, 8, 12, 16}
  {
    if diff == 0 then 0
    else
      var m := if Abs(diff) == 1 then 0 else TopBit(Abs(diff) - 1);
      if m < comp.low then 0
      else (if m > comp.high then 12 else 4) + 4 * SignBit(diff)
  }

  // ----- AC coefficients, first scan or sequential (Figure F.5)

  function AcMagnitude(comp: Component, k: nat, v: nat): seq<Decision>
    requires k >= 1
  {
    var area, st := AcArea(comp.acTbl), 3 * (k - 1) + 2;
    if v == 0 then [Choose(area, st, 0)]
    else if v == 1 then [Choose(area, st, 1), Choose(area, st, 0)]
    else
      var x2 := if k <= comp.kx then 189 else 217;
      [Choose(area, st, 1), Choose(area, st, 1)]
      + (Category(area, x2, v / 2) + Pattern(area, CategoryEnd(x2, v / 2) + 14, v, TopBit(v)))
  }

  /** Index of the last coefficient up to `k` that is nonzero at precision `al`. */
  function LastNonzero(block: Block, al: nat, k: nat): (ke: nat)
    requires k < 64
    ensures ke <= k && (ke > 0 ==> PointAc(block[ke], al) != 0)
    ensures forall j :: ke < j <= k ==> PointAc(block[j], al) == 0
  {
    if k == 0 || PointAc(block[k], al) != 0 then k else LastNonzero(block, al, k - 1)
  }

  /** From the EOB decision before coefficient `k` on. */
  function AcFrom(comp: Component, block: Block, al: nat, se: nat, ke: nat, k: nat): seq<Decision>
    requires 1 <= k && ke <= se < 64 && (1 <= ke ==> PointAc(block[ke], al) != 0)
    decreases 64 - k, 1
  {
    if k <= ke then
      [Choose(AcArea(comp.acTbl), 3 * (k - 1), 0)] + AcRun(comp, block, al, se, ke, k)
    else if k <= se then [Choose(AcArea(comp.acTbl), 3 * (k - 1), 1)]
    else []
  }

  /** From the zero/nonzero decision of coefficient `k` on. */
  function AcRun(comp: Component, block: Block, al: nat, se: nat, ke: nat, k: nat): seq<Decision>
    requires 1 <= k <= ke && ke <= se < 64 && PointAc(block[ke], al) != 0
    decreases 64 - k, 0
  {
    var area, x := AcArea(comp.acTbl), PointAc(block[k], al);
    if x == 0 then
      [Choose(area, 3 * (k - 1) + 1, 0)] + AcRun(comp, block, al, se, ke, k + 1)
    else
      [Choose(area, 3 * (k - 1) + 1, 1), Decision(Fixed, SignBit(x))]
      + (AcMagnitude(comp, k, Abs(x) - 1) + AcFrom(comp, block, al, se, ke, k + 1))
  }

  // ----- AC refinement (Figure G.10)

  function RefineFrom(comp: Component, block: Block, al: nat, se: nat, ke: nat, kex: nat, k: nat): seq<Decision>
    requires 1 <= k && kex <= ke <= se < 64 && (1 <= ke ==> PointAc(block[ke], al) != 0)
    decreases 64 - k, 1
  {
    if k <= ke then
      (if k > kex then [Choose(AcArea(comp.acTbl), 3 * (k - 1), 0)] else [])
      + RefineRun(comp, block, al, se, ke, kex, k)
    else if k <= se then [Choose(AcArea(comp.acTbl), 3 * (k - 1), 1)]
    else []
  }

  function RefineRun(comp: Component, block: Block, al: nat, se: nat, ke: nat, kex: nat, k: nat): seq<Decision>
    requires 1 <= k <= ke && kex <= ke <= se < 64 && PointAc(block[ke], al) != 0
    decreases 64 - k, 0
  {
    var area, v := AcArea(comp.acTbl), Abs(PointAc(block[k], al));
    if v == 0 then
      [Choose(area, 3 * (k - 1) + 1, 0)] + RefineRun(comp, block, al, se, ke, kex, k + 1)
    else if v > 1 then
      [Choose(area, 3 * (k - 1) + 2, v % 2)] + RefineFrom(comp, block, al, se, ke, kex, k + 1)
    else
      [Choose(area, 3 * (k - 1) + 1, 1), Decision(Fixed, SignBit(block[k]))]
      + RefineFrom(comp, block, al, se, ke, kex, k + 1)
  }

  // ----- the same decisions read from the front

  lemma {:induction false} CategoryStep(area: Area, st: nat, w: nat, after: seq<Decision>, e: nat)
    requires w > 0
    ensures Category(area, st, w) + after
         == if w == 1 then [Choose(area, st, 0)] + after
            else [Choose(area, st, 1)] + (Category(area, st + 1, w / 2) + after)
    ensures if w == 1 then Shl(TopBit(w), e) == Pow2(e) && CategoryEnd(st, w) == st
            else Shl(TopBit(w), e) == Shl(TopBit(w / 2), e + 1) && CategoryEnd(st, w) == CategoryEnd(st + 1, w / 2)
    ensures w > 1 ==> Shl(TopBit(w), e) >= Pow2(e + 1)
  {
    if w > 1 {
      ShlMonotone(1, TopBit(w / 2), e + 1);
      ShlShl(TopBit(w / 2), 1, e);
      assert Shl(TopBit(w / 2), 1) == 2 * TopBit(w / 2);
    }
  }

  lemma {:induction false} PatternStep(area: Area, st: nat, x: nat, w: nat, after: seq<Decision>)
    requires w > 1
    ensures Pattern(area, st, x, w) + after
         == [Choose(area, st, x / (w / 2) % 2)] + (Pattern(area, st, x, w / 2) + after)
  {
  }

  lemma {:induction false} AcMagnitudeUnfold(comp: Component, k: nat, v: nat, after: seq<Decision>)
    requires k >= 1
    ensures var area, st, x2 := AcArea(comp.acTbl), 3 * (k - 1) + 2, if k <= comp.kx then 189 else 217;
            AcMagnitude(comp, k, v) + after
            == if v == 0 then [Choose(area, st, 0)] + (Pattern(area, st + 14, 0, 0) + after)
               else if v == 1 then [Choose(area, st, 1)] + ([Choose(area, st, 0)] + (Pattern(area, st + 14, 1, 1) + after))
               else [Choose(area, st, 1)] + ([Choose(area, st, 1)]
                    + (Category(area, x2, v / 2) + (Pattern(area, CategoryEnd(x2, v / 2) + 14, v, TopBit(v)) + after)))
  {
    var area, st, x2 := AcArea(comp.acTbl), 3 * (k - 1) + 2, if k <= comp.kx then 189 else 217;
    assert Pattern(area, st + 14, 0, 0) == [] == Pattern(area, st + 14, 1, 1);
    hide Category, CategoryEnd, TopBit, Pattern, BinAt;
    if v == 0 {
      assert [Choose(area, st, 0)] + after == [Choose(area, st, 0)] + ([] + after);
    } else if v == 1 {
      assert [Choose(area, st, 1), Choose(area, st, 0)] + after
          == [Choose(area, st, 1)] + ([Choose(area, st, 0)] + ([] + after));
    } else {
      var c, p := Category(area, x2, v / 2), Pattern(area, CategoryEnd(x2, v / 2) + 14, v, TopBit(v));
      assert [Choose(area, st, 1), Choose(area, st, 1)] + (c + p) + after
          == [Choose(area, st, 1)] + ([Choose(area, st, 1)] + (c + (p + after)));
    }
  }

  lemma {:induction false} AcFromUnfold(comp: Component, block: Block, al: nat, se: nat, ke: nat, k: nat, after: seq<Decision>)
    requires 1 <= k && ke <= se < 64 && (1 <= ke ==> PointAc(block[ke], al) != 0)
    ensures AcFrom(comp, block, al, se, ke, k) + after
            == if k <= ke then [Choose(AcArea(comp.acTbl), 3 * (k - 1), 0)] + (AcRun(comp, block, al, se, ke, k) + after)
               else if k <= se then [Choose(AcArea(comp.acTbl), 3 * (k - 1), 1)] + after
               else after
  {
    hide AcRun, PointAc;
  }

  lemma {:induction false} AcRunUnfold(comp: Component, block: Block, al: nat, se: nat, ke: nat, k: nat, after: seq<Decision>)
    requires 1 <= k <= ke && ke <= se < 64 && PointAc(block[ke], al) != 0
    ensures var area, x := AcArea(comp.acTbl), PointAc(block[k], al);
            AcRun(comp, block, al, se, ke, k) + after
            == if x == 0 then [Choose(area, 3 * (k - 1) + 1, 0)] + (AcRun(comp, block, al, se, ke, k + 1) + after)
               else [Choose(area, 3 * (k - 1) + 1, 1)] + ([Decision(Fixed, SignBit(x))]
                    + (AcMagnitude(comp, k, Abs(x) - 1) + (AcFrom(comp, block, al, se, ke, k + 1) + after)))
  {
    hide AcFrom, PointAc, AcMagnitude;
  }

  lemma {:induction false} RefineFromUnfold(comp: Component, block: Block, al: nat, se: nat, ke: nat, kex: nat, k: nat, after: seq<Decision>)
    requires 1 <= k && kex <= ke <= se < 64 && (1 <= ke ==> PointAc(block[ke], al) != 0)
    ensures var area := AcArea(comp.acTbl);
            RefineFrom(comp, block, al, se, ke, kex, k) + after
            == if k <= ke then
                 (if k > kex then [Choose(area, 3 * (k - 1), 0)] + (RefineRun(comp, block, al, se, ke, kex, k) + after)
                  else RefineRun(comp, block, al, se, ke, kex, k) + after)
               else if k <= se then [Choose(area, 3 * (k - 1), 1)] + after
               else after
  {
    hide RefineRun, PointAc;
    if k <= ke && k <= kex {
      assert [] + RefineRun(comp, block, al, se, ke, kex, k) == RefineRun(comp, block, al, se, ke, kex, k);
    }
  }

  lemma {:induction false} RefineRunUnfold(comp: Component, block: Block, al: nat, se: nat, ke: nat, kex: nat, k: nat, after: seq<Decision>)
    requires 1 <= k <= ke && kex <= ke <= se < 64 && PointAc(block[ke], al) != 0
    ensures var area, v := AcArea(comp.acTbl), Abs(PointAc(block[k], al));
            RefineRun(comp, block, al, se, ke, kex, k) + after
            == if v == 0 then [Choose(area, 3 * (k - 1) + 1, 0)] + (RefineRun(comp, block, al, se, ke, kex, k + 1) + after)
               else if v > 1 then [Choose(area, 3 * (k - 1) + 2, v % 2)] + (RefineFrom(comp, block, al, se, ke, kex, k + 1) + after)
               else [Choose(area, 3 * (k - 1) + 1, 1)] + ([Decision(Fixed, SignBit(block[k]))]
                    + (RefineFrom(comp, block, al, se, ke, kex, k + 1) + after))
  {
    hide RefineFrom, PointAc;
  }

  lemma {:induction false} TopBitHalved(v: nat)
    requires v > 0
    ensures v > 1 ==> Shl(TopBit(v / 2), 1) == TopBit(v)
    ensures v == 1 ==> TopBit(v) == 1
  {
    if v > 1 {
      assert Shl(TopBit(v / 2), 1) == 2 * TopBit(v / 2);
    }
  }

  /** The pieces in which a magnitude is read. */
  lemma {:induction false} DcMagnitudeUnfold(comp: Component, st: nat, v: nat, after: seq<Decision>)
    ensures var area := DcArea(comp.dcTbl);
            DcMagnitude(comp, st, v) + after
            == if v == 0 then [Choose(area, st, 0)] + (Pattern(area, st + 14, 0, 0) + after)
               else [Choose(area, st, 1)]
                    + (Category(area, 20, v) + (Pattern(area, CategoryEnd(20, v) + 14, v, TopBit(v)) + after))
    ensures v > 0 ==> Shl(TopBit(v), 0) == TopBit(v)
  {
    hide Category, CategoryEnd, TopBit;
    assert Pattern(DcArea(comp.dcTbl), st + 14, 0, 0) == [];
  }

  lemma {:induction false} DcUnfold(comp: Component, context: nat, diff: int, after: seq<Decision>)
    ensures var area := DcArea(comp.dcTbl);
            DcDecisions(comp, context, diff) + after
            == if diff == 0 then [Choose(area, context, 0)] + after
               else [Choose(area, context, 1)]
                    + ([Choose(area, context + 1, SignBit(diff))]
                       + (DcMagnitude(comp, context + 2 + SignBit(diff), Abs(diff) - 1) + after))
  {
    hide DcMagnitude;
  }

  lemma {:induction false} PatternStops(area: Area, st: nat, x: nat, w: nat, after: seq<Decision>)
    requires w <= 1
    ensures Pattern(area, st, x, w) + after == after
  {
  }

  lemma {:induction false} FitsBelow(area: Area, offset: nat, bound: nat)
    requires offset <= bound && Fits(area, bound)
    ensures Fits(area, offset)
  {
  }

  lemma {:induction false} AreaFits(area: Area)
    ensures forall offset: nat {:trigger Fits(area, offset)} {:trigger BinAt(area, offset)} :: offset < 64 || (area.AcArea? && offset < 256) ==> Fits(area, offset) && InArea(BinAt(area, offset))
    ensures InArea(Fixed)
  {
  }
}
