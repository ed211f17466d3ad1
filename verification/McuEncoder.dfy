/** The MCU routines of the arithmetic encoder, decision by decision. Each method is
    given, as ghosts, the decisions `after` its own and the log `target` that all of
    them lead to. */
module McuEncoding {
  import opened Shifts
  import opened ProbabilityTable
  import opened IntervalCoder
  import opened Binarisation
  import opened ArithEncoding

  /** The encoder stays on the same segment. */
  twostate predicate SameStart(enc: ArithEncoder)
    reads enc
  {
    enc.head == old(enc.head) && enc.start == old(enc.start)
  }

  /** Encode the next planned decision. */
  method Code(enc: ArithEncoder, bin: Bin, bit: Bit, ghost after: seq<Decision>, ghost target: seq<Decision>)
    requires enc.Valid() && InArea(bin)
    requires enc.log + ([Decision(bin, bit)] + after) == target
    modifies enc
    ensures enc.Valid() && SameStart(enc)
    ensures enc.log + after == target
  {
    hide ArithEncoder.Valid, Step;
    ghost var log := enc.log;
    enc.Encode(bin, bit);
    assert log + ([Decision(bin, bit)] + after) == log + [Decision(bin, bit)] + after;
  }

  /** `while (v2 >>= 1)`: one decision per bit below the top one, and the stop. The
      magnitude bit `m` starts at 1 << e0. */
  method EncodeCategory(enc: ArithEncoder, area: Area, st0: nat, v: nat, e0: nat, ghost after: seq<Decision>, ghost target: seq<Decision>)
    returns (m: nat, st: nat)
    requires enc.Valid() && v > 0 && Fits(area, CategoryEnd(st0, v)) && e0 <= 1
    requires enc.log + (Category(area, st0, v) + after) == target
    modifies enc
    ensures enc.Valid() && SameStart(enc) && enc.log + after == target
    ensures m == Shl(TopBit(v), e0) && st == CategoryEnd(st0, v)
  {
    hide ArithEncoder.Valid, Category, TopBit, CategoryEnd, BinAt, InArea, Shl;
    assert Pow2(0) == 1 && Pow2(1) == 2 by { Pow2Small(); }
    m, st := if e0 == 0 then 1 else 2, st0;
    ghost var w, e := v, e0;
    var v2 := v / 2;
    CategoryStep(area, st, w, after, e);
    while v2 != 0
      invariant enc.Valid() && SameStart(enc)
      invariant w > 0 && v2 == w / 2 && m == Pow2(e) && st <= CategoryEnd(st0, v)
      invariant enc.log + (Category(area, st, w) + after) == target
      invariant Shl(TopBit(w), e) == Shl(TopBit(v), e0) && CategoryEnd(st, w) == CategoryEnd(st0, v)
    {
      CategoryStep(area, st, w, after, e);
      FitsBelow(area, st, CategoryEnd(st0, v));
      Code(enc, BinAt(area, st), 1, Category(area, st + 1, w / 2) + after, target);
      Pow2Double(e);
      m := 2 * m;
      e := e + 1;
      st := st + 1;
      w := w / 2;
      v2 := v2 / 2;
    }
    CategoryStep(area, st, w, after, e);
    Code(enc, BinAt(area, st), 0, after, target);
  }

  /** Figure F.9: the bits of `v` below the top one. */
  method EncodePattern(enc: ArithEncoder, area: Area, st: nat, v: nat, m0: nat, ghost after: seq<Decision>, ghost target: seq<Decision>)
    requires enc.Valid() && (m0 > 1 ==> Fits(area, st))
    requires enc.log + (Pattern(area, st, v, m0) + after) == target
    modifies enc
    ensures enc.Valid() && SameStart(enc) && enc.log + after == target
  {
    hide ArithEncoder.Valid, Pattern, BinAt, InArea;
    ghost var w: nat := m0;
    var m: nat := m0 / 2;
    while m != 0
      invariant enc.Valid() && SameStart(enc)
      invariant m == w / 2 && (w > 1 ==> Fits(area, st))
      invariant enc.log + (Pattern(area, st, v, w) + after) == target
    {
      PatternStep(area, st, v, w, after);
      Code(enc, BinAt(area, st), v / m % 2, Pattern(area, st, v, m) + after, target);
      w := m;
      m := m / 2;
    }
    PatternStops(area, st, v, w, after);
  }

  /** Figure F.4: one DC difference; the new conditioning category is returned. */
  method EncodeDc(enc: ArithEncoder, comp: Component, context0: nat, diff: int, ghost after: seq<Decision>, ghost target: seq<Decision>)
    returns (context: nat)
    requires enc.Valid() && context0 <= 16 && Abs(diff) <= 65536
    requires enc.log + (DcDecisions(comp, context0, diff) + after) == target
    modifies enc
    ensures enc.Valid() && SameStart(enc) && enc.log + after == target
    ensures context == DcContext(comp, diff)
  {
    hide ArithEncoder.Valid, Category, Pattern, TopBit, CategoryEnd, DcDecisions, DcMagnitude, BinAt, InArea, Fits, Shl;
    var area, st := DcArea(comp.dcTbl), context0;
    AreaFits(area);
    DcUnfold(comp, context0, diff, after);
    if diff == 0 {
      Code(enc, BinAt(area, st), 0, after, target);
      context := 0;
    } else {
      ghost var sign, st1 := SignBit(diff), context0 + 2 + SignBit(diff);
      ghost var todo := DcMagnitude(comp, st1, Abs(diff) - 1) + after;
      Code(enc, BinAt(area, st), 1, [Choose(area, st + 1, sign)] + todo, target);
      var v: nat;
      if diff > 0 {
        v := diff;
        Code(enc, BinAt(area, st + 1), 0, todo, target);
        st := st + 2;
        context := 4;
      } else {
        v := -diff;
        Code(enc, BinAt(area, st + 1), 1, todo, target);
        st := st + 3;
        context := 8;
      }
      var m := 0;
      v := v - 1;
      DcMagnitudeUnfold(comp, st1, v, after);
      if v != 0 {
        DcOffsetBound(v);
        ghost var bits := Pattern(area, CategoryEnd(20, v) + 14, v, TopBit(v)) + after;
        Code(enc, BinAt(area, st), 1, Category(area, 20, v) + bits, target);
        m, st := EncodeCategory(enc, area, 20, v, 0, bits, target);
      } else {
        Code(enc, BinAt(area, st), 0, Pattern(area, st + 14, 0, 0) + after, target);
      }
      if m < comp.low {
        context := 0;
      } else if m > comp.high {
        context := context + 8;
      }
      EncodePattern(enc, area, st + 14, v, m, after, target);
    }
  }

  lemma {:induction false} DcOffsetBound(v: nat)
    requires 0 < v < 65536
    ensures CategoryEnd(20, v) <= 35
  {
    ShlConstants(1);
    CategoryEndBound(20, v, 15);
  }

  lemma {:induction false} AcOffsetBound(x2: nat, v: nat)
    requires 0 < v < 16384
    ensures CategoryEnd(x2, v) <= x2 + 13
  {
    ShlConstants(1);
    Pow2Double(14);
    Pow2Double(15);
    CategoryEndBound(x2, v, 13);
  }

  /** Figures F.6 to F.9: sign and magnitude of the nonzero coefficient `x` at `k`. */
  method EncodeNonzero(enc: ArithEncoder, comp: Component, k: nat, x: int, ghost after: seq<Decision>, ghost target: seq<Decision>)
    requires enc.Valid() && x != 0 && 1 <= k < 64 && Abs(x) <= 32768
    requires enc.log + ([Choose(AcArea(comp.acTbl), 3 * (k - 1) + 1, 1)] + ([Decision(Fixed, SignBit(x))]
                        + (AcMagnitude(comp, k, Abs(x) - 1) + after))) == target
    modifies enc
    ensures enc.Valid() && SameStart(enc) && enc.log + after == target
  {
    hide ArithEncoder.Valid, AcMagnitude, BinAt, InArea, Fits;
    var area, st := AcArea(comp.acTbl), 3 * (k - 1);
    AreaFits(area);
    ghost var todo := AcMagnitude(comp, k, Abs(x) - 1) + after;
    Code(enc, BinAt(area, st + 1), 1, [Decision(Fixed, SignBit(x))] + todo, target);
    var v: nat;
    if x > 0 {
      v := x;
      Code(enc, Fixed, 0, todo, target);
    } else {
      v := -x;
      Code(enc, Fixed, 1, todo, target);
    }
    EncodeAcMagnitude(enc, comp, k, v - 1, after, target);
  }

  method EncodeAcMagnitude(enc: ArithEncoder, comp: Component, k: nat, v: nat, ghost after: seq<Decision>, ghost target: seq<Decision>)
    requires enc.Valid() && 1 <= k < 64 && v < 32768
    requires enc.log + (AcMagnitude(comp, k, v) + after) == target
    modifies enc
    ensures enc.Valid() && SameStart(enc) && enc.log + after == target
  {
    hide ArithEncoder.Valid, Category, Pattern, TopBit, CategoryEnd, AcMagnitude, BinAt, InArea, Fits, Shl;
    var area, st := AcArea(comp.acTbl), 3 * (k - 1) + 2;
    AreaFits(area);
    AcMagnitudeUnfold(comp, k, v, after);
    TopBitHalved(if v > 0 then v else 1);
    var m := 0;
    if v != 0 {
      m := 1;
      if v / 2 != 0 {
        var x2 := if k <= comp.kx then 189 else 217;
        AcOffsetBound(x2, v / 2);
        ghost var bits := Pattern(area, CategoryEnd(x2, v / 2) + 14, v, TopBit(v)) + after;
        Code(enc, BinAt(area, st), 1, [Choose(area, st, 1)] + (Category(area, x2, v / 2) + bits), target);
        Code(enc, BinAt(area, st), 1, Category(area, x2, v / 2) + bits, target);
        m, st := EncodeCategory(enc, area, x2, v / 2, 1, bits, target);
      } else {
        ghost var bits := Pattern(area, st + 14, 1, 1) + after;
        Code(enc, BinAt(area, st), 1, [Choose(area, st, 0)] + bits, target);
        Code(enc, BinAt(area, st), 0, bits, target);
      }
    } else {
      Code(enc, BinAt(area, st), 0, Pattern(area, st + 14, 0, 0) + after, target);
    }
    EncodePattern(enc, area, st + 14, v, m, after, target);
  }

  /** The end-of-block index: the last coefficient that the point transform keeps. */
  method EndOfBlock(block: Block, al: nat, from: nat) returns (ke: nat)
    requires from < 64
    ensures ke == LastNonzero(block, al, from)
  {
    hide PointAc;
    ke := from;
    while ke > 0
      invariant ke <= from && LastNonzero(block, al, from) == LastNonzero(block, al, ke)
    {
      if PointAc(block[ke], al) != 0 {
        return;
      }
      ke := ke - 1;
    }
  }

  /** Figure F.5, for the band ss..se at precision `al`; the sequential coder is the
      band 1..63 at precision 0. */
  method EncodeAcFirst(enc: ArithEncoder, comp: Component, block: Block, ss: nat, se: nat, al: nat,
                       ghost after: seq<Decision>, ghost target: seq<Decision>)
    requires enc.Valid() && 1 <= ss <= se < 64
    requires enc.log + (AcFrom(comp, block, al, se, LastNonzero(block, al, se), ss) + after) == target
    modifies enc
    ensures enc.Valid() && SameStart(enc) && enc.log + after == target
  {
    hide ArithEncoder.Valid, PointAc, AcFrom, AcRun, LastNonzero, BinAt, InArea, Fits;
    var area := AcArea(comp.acTbl);
    AreaFits(area);
    var ke := EndOfBlock(block, al, se);
    var k := ss;
    while k <= ke
      invariant enc.Valid() && SameStart(enc) && ss <= k
      invariant enc.log + (AcFrom(comp, block, al, se, ke, k) + after) == target
      decreases 64 - k
    {
      AcFromUnfold(comp, block, al, se, ke, k, after);
      Code(enc, BinAt(area, 3 * (k - 1)), 0, AcRun(comp, block, al, se, ke, k) + after, target);
      k := EncodeAcRun(enc, comp, block, al, se, ke, k, after, target);
      k := k + 1;
    }
    AcFromUnfold(comp, block, al, se, ke, k, after);
    if k <= se {
      Code(enc, BinAt(area, 3 * (k - 1)), 1, after, target);
    }
  }

  /** Zero decisions up to the next nonzero coefficient, and that coefficient. */
  method EncodeAcRun(enc: ArithEncoder, comp: Component, block: Block, al: nat, se: nat, ke: nat, k0: nat,
                     ghost after: seq<Decision>, ghost target: seq<Decision>) returns (k: nat)
    requires enc.Valid() && 1 <= k0 <= ke && ke <= se < 64 && PointAc(block[ke], al) != 0
    requires enc.log + (AcRun(comp, block, al, se, ke, k0) + after) == target
    modifies enc
    ensures enc.Valid() && SameStart(enc) && k0 <= k <= ke
    ensures enc.log + (AcFrom(comp, block, al, se, ke, k + 1) + after) == target
  {
    hide ArithEncoder.Valid, PointAc, AcFrom, AcRun, AcMagnitude, BinAt, InArea, Fits;
    var area := AcArea(comp.acTbl);
    AreaFits(area);
    k := k0;
    while PointAc(block[k], al) == 0
      invariant enc.Valid() && SameStart(enc) && k0 <= k <= ke
      invariant enc.log + (AcRun(comp, block, al, se, ke, k) + after) == target
      decreases 64 - k
    {
      AcRunUnfold(comp, block, al, se, ke, k, after);
      Code(enc, BinAt(area, 3 * (k - 1) + 1), 0, AcRun(comp, block, al, se, ke, k + 1) + after, target);
      k := k + 1;
    }
    AcRunUnfold(comp, block, al, se, ke, k, after);
    EncodeNonzero(enc, comp, k, PointAc(block[k], al), AcFrom(comp, block, al, se, ke, k + 1) + after, target);
  }

  /** Figure G.10: the band ss..se gains one bit of precision, from `ah` to `al`. */
  method EncodeAcRefine(enc: ArithEncoder, comp: Component, block: Block, ss: nat, se: nat, ah: nat, al: nat,
                        ghost after: seq<Decision>, ghost target: seq<Decision>)
    requires enc.Valid() && 1 <= ss <= se < 64
    requires var ke := LastNonzero(block, al, se);
             enc.log + (RefineFrom(comp, block, al, se, ke, LastNonzero(block, ah, ke), ss) + after) == target
    modifies enc
    ensures enc.Valid() && SameStart(enc) && enc.log + after == target
  {
    hide ArithEncoder.Valid, PointAc, RefineFrom, RefineRun, LastNonzero, BinAt, InArea, Fits;
    var area := AcArea(comp.acTbl);
    AreaFits(area);
    var ke := EndOfBlock(block, al, se);
    var kex := EndOfBlock(block, ah, ke);
    var k := ss;
    while k <= ke
      invariant enc.Valid() && SameStart(enc) && ss <= k
      invariant enc.log + (RefineFrom(comp, block, al, se, ke, kex, k) + after) == target
      decreases 64 - k
    {
      RefineFromUnfold(comp, block, al, se, ke, kex, k, after);
      if k > kex {
        Code(enc, BinAt(area, 3 * (k - 1)), 0, RefineRun(comp, block, al, se, ke, kex, k) + after, target);
      }
      k := EncodeRefineRun(enc, comp, block, al, se, ke, kex, k, after, target);
      k := k + 1;
    }
    RefineFromUnfold(comp, block, al, se, ke, kex, k, after);
    if k <= se {
      Code(enc, BinAt(area, 3 * (k - 1)), 1, after, target);
    }
  }

  /** Zero decisions, then a correction bit or a new nonzero coefficient. */
  method EncodeRefineRun(enc: ArithEncoder, comp: Component, block: Block, al: nat, se: nat, ke: nat, kex: nat, k0: nat,
                         ghost after: seq<Decision>, ghost target: seq<Decision>) returns (k: nat)
    requires enc.Valid() && 1 <= k0 <= ke && kex <= ke <= se < 64 && PointAc(block[ke], al) != 0
    requires enc.log + (RefineRun(comp, block, al, se, ke, kex, k0) + after) == target
    modifies enc
    ensures enc.Valid() && SameStart(enc) && k0 <= k <= ke
    ensures enc.log + (RefineFrom(comp, block, al, se, ke, kex, k + 1) + after) == target
  {
    hide ArithEncoder.Valid, PointAc, RefineFrom, RefineRun, BinAt, InArea, Fits;
    var area := AcArea(comp.acTbl);
    AreaFits(area);
    k := k0;
    while PointAc(block[k], al) == 0
      invariant enc.Valid() && SameStart(enc) && k0 <= k <= ke
      invariant enc.log + (RefineRun(comp, block, al, se, ke, kex, k) + after) == target
      decreases 64 - k
    {
      RefineRunUnfold(comp, block, al, se, ke, kex, k, after);
      Code(enc, BinAt(area, 3 * (k - 1) + 1), 0, RefineRun(comp, block, al, se, ke, kex, k + 1) + after, target);
      k := k + 1;
    }
    RefineRunUnfold(comp, block, al, se, ke, kex, k, after);
    ghost var todo := RefineFrom(comp, block, al, se, ke, kex, k + 1) + after;
    var v := Abs(PointAc(block[k], al));
    if v > 1 {
      Code(enc, BinAt(area, 3 * (k - 1) + 2), v % 2, todo, target);
    } else {
      Code(enc, BinAt(area, 3 * (k - 1) + 1), 1, [Decision(Fixed, SignBit(block[k]))] + todo, target);
      Code(enc, Fixed, SignBit(block[k]), todo, target);
    }
  }
}
