/** The MCU routines of the arithmetic decoder. Every routine runs on any input; when
    the decisions to come are those of a known block, it rebuilds that block. */
module McuDecoding {
  import opened Shifts
  import opened ByteCode
  import opened ProbabilityTable
  import opened IntervalCoder
  import opened Binarisation
  import opened ArithDecoding

  /** The decoder stays on the same segment. */
  twostate predicate SameSegment(dec: ArithDecoder)
    reads dec
  {
    && dec.code == old(dec.code) && dec.fill == old(dec.fill)
    && dec.marker == old(dec.marker) && dec.rest == old(dec.rest)
  }

  lemma {:induction false} TopBitIsPower(v: nat) returns (e: nat)
    requires v > 0
    ensures TopBit(v) == Pow2(e)
    decreases v
  {
    if v == 1 {
      e := 0;
    } else {
      e := TopBitIsPower(v / 2);
      e := e + 1;
    }
  }

  /** Decode one decision; if it is known to be coming, so is its answer. */
  method Take(dec: ArithDecoder, bin: Bin, ghost known: bool, ghost expected: Bit, ghost after: seq<Decision>) returns (bit: Bit)
    requires dec.Valid() && InArea(bin)
    requires known ==> dec.future == [Decision(bin, expected)] + after
    modifies dec
    ensures dec.Valid() && SameSegment(dec)
    ensures known ==> bit == expected && dec.future == after
  {
    hide ArithDecoder.Valid, Step;
    bit := dec.Decode(bin);
  }

  /** A magnitude category of the value `w`, at offset `st` with `e` doublings done. */
  datatype Category_ = Reading(area: Area, st: nat, e: nat, w: nat)

  ghost predicate OnTrack(r: Category_, total: nat, end: nat, after: seq<Decision>, future: seq<Decision>) {
    && r.w > 0 && Shl(TopBit(r.w), r.e) == total && CategoryEnd(r.st, r.w) == end
    && future == Category(r.area, r.st, r.w) + after
  }

  function Onward(r: Category_): Category_ {
    Reading(r.area, r.st + 1, r.e + 1, r.w / 2)
  }

  lemma {:induction false} OnTrackStart(r: Category_, after: seq<Decision>)
    requires r.w > 0
    ensures OnTrack(r, Shl(TopBit(r.w), r.e), CategoryEnd(r.st, r.w), after, Category(r.area, r.st, r.w) + after)
  {
  }

  lemma {:induction false} OnTrackStep(r: Category_, total: nat, end: nat, after: seq<Decision>, future: seq<Decision>)
    requires OnTrack(r, total, end, after, future)
    ensures r.w > 0
    ensures r.w == 1 ==> future == [Decision(BinAt(r.area, r.st), 0)] + after && total == Pow2(r.e) && end == r.st
    ensures r.w != 1 ==>
              && future == [Decision(BinAt(r.area, r.st), 1)] + (Category(r.area, r.st + 1, r.w / 2) + after)
              && OnTrack(Onward(r), total, end, after, Category(r.area, r.st + 1, r.w / 2) + after)
              && total >= Pow2(r.e + 1)
  {
    hide Category, TopBit, CategoryEnd, Shl, BinAt;
    CategoryStep(r.area, r.st, r.w, after, r.e);
  }

  /** Figure F.23 after the first decisions: double `m` for every 1. Fails when the
      magnitude would reach 0x8000. */
  method DecodeCategory(dec: ArithDecoder, area: Area, st0: nat, e0: nat, ghost v: nat, ghost after: seq<Decision>)
    returns (ok: bool, m: nat, st: nat)
    requires dec.Valid() && v > 0 && e0 <= 1 && Fits(area, st0 + 28)
    modifies dec
    ensures dec.Valid() && SameSegment(dec)
    ensures ok ==> 0 < m < 0x8000 && st0 <= st <= st0 + 14
    ensures old(dec.future) == Category(area, st0, v) + after ==>
              && (ok <==> Shl(TopBit(v), e0) < 0x8000)
              && (ok ==> m == Shl(TopBit(v), e0) && st == CategoryEnd(st0, v) && dec.future == after)
  {
    hide ArithDecoder.Valid, OnTrack, Category, CategoryEnd, TopBit, Shl, Pow2, BinAt, InArea, Choose;
    PowerBelow(e0);
    ghost var known := dec.future == Category(area, st0, v) + after;
    ghost var total, end := Shl(TopBit(v), e0), CategoryEnd(st0, v);
    ghost var r := Reading(area, st0, e0, v);
    if known {
      OnTrackStart(r, after);
    }
    m, st, ok := if e0 == 0 then 1 else 2, st0, false;
    while true
      invariant dec.Valid() && SameSegment(dec) && !ok
      invariant r.area == area && r.st == st && st == st0 + (r.e - e0) && e0 <= r.e < 15 && m == Pow2(r.e)
      invariant known ==> OnTrack(r, total, end, after, dec.future)
      decreases 15 - r.e
    {
      ghost var todo := [];
      if known {
        OnTrackStep(r, total, end, after, dec.future);
        todo := if r.w == 1 then after else Category(area, st + 1, r.w / 2) + after;
      }
      FitsBelow(area, st, st0 + 28);
      PowerBelow(r.e);
      var bit := Take(dec, BinAt(area, st), known, if r.w == 1 then 0 else 1, todo);
      if bit == 0 {
        ok := true;
        break;
      }
      m := 2 * m;
      if m == 0x8000 {
        break;
      }
      st := st + 1;
      r := Onward(r);
    }
  }

  lemma {:induction false} PowerBelow(e: nat)
    requires e < 15
    ensures 0 < Pow2(e) < 0x8000 && Pow2(e + 1) == 2 * Pow2(e)
    ensures 2 * Pow2(e) == 0x8000 <==> e == 14
    ensures e == 0 ==> Pow2(e) == 1
    ensures e == 1 ==> Pow2(e) == 2
  {
    ShlConstants(1);
    Pow2Strict(e, 15);
    Pow2Strict(e + 1, 15);
  }

  /** One more bit of `x` below those already in `v`. */
  lemma {:induction false} BitStep(x: nat, e: nat)
    ensures x / Pow2(e) * Pow2(e) == x / Pow2(e + 1) * Pow2(e + 1) + x / Pow2(e) % 2 * Pow2(e)
  {
    var m := Pow2(e);
    Pow2Double(e);
    DivDiv(x, m, 2);
    var q := x / m;
    assert q == q / 2 * 2 + q % 2;
    assert q * m == (q / 2 * 2) * m + q % 2 * m;
    assert (q / 2 * 2) * m == q / 2 * (2 * m);
  }

  lemma {:induction false} TopBitQuotient(x: nat, e: nat)
    requires x > 0 && TopBit(x) == Pow2(e)
    ensures x / Pow2(e) * Pow2(e) == Pow2(e)
  {
    QuotientIs(x, Pow2(e), 1);
  }

  /** Figure F.24: the bits below the top one; `v |= m` adds a bit that is clear. */
  method DecodePattern(dec: ArithDecoder, area: Area, st: nat, m0: nat, ghost x: nat, ghost after: seq<Decision>)
    returns (v: nat)
    requires dec.Valid() && (m0 > 1 ==> Fits(area, st))
    modifies dec
    ensures dec.Valid() && SameSegment(dec)
    ensures m0 <= v && (if m0 == 0 then v == 0 else v < 2 * m0)
    ensures old(dec.future) == Pattern(area, st, x, m0) + after && m0 == (if x == 0 then 0 else TopBit(x)) ==>
              v == x && dec.future == after
  {
    hide ArithDecoder.Valid, Step, TopBit, Pattern, Pow2, BinAt;
    ghost var known := dec.future == Pattern(area, st, x, m0) + after && m0 == if x == 0 then 0 else TopBit(x);
    ghost var w, e := m0, 0;
    if known && x != 0 {
      e := TopBitIsPower(x);
      TopBitQuotient(x, e);
    }
    v := m0;
    var m: nat := m0 / 2;
    while m != 0
      invariant dec.Valid() && SameSegment(dec)
      invariant m == w / 2 && m0 <= v && (if m0 == 0 then v == 0 else w > 0 && v + w <= 2 * m0)
      invariant known && x != 0 ==> w == Pow2(e) && v == x / w * w
      invariant known ==> dec.future == Pattern(area, st, x, w) + after
    {
      if known {
        PatternStep(area, st, x, w, after);
        HalfPower(e);
        BitStep(x, e - 1);
        e := e - 1;
      }
      var bit := dec.Decode(BinAt(area, st));
      if bit != 0 {
        v := v + m;
      }
      w := m;
      m := m / 2;
    }
    PatternDone(area, st, x, w);
  }

  lemma {:induction false} HalfPower(e: nat)
    requires Pow2(e) > 1
    ensures e > 0 && Pow2(e) / 2 == Pow2(e - 1) && Pow2(e) == 2 * Pow2(e - 1)
  {
  }

  lemma {:induction false} PatternDone(area: Area, st: nat, x: nat, w: nat)
    requires w <= 1
    ensures Pattern(area, st, x, w) == [] && (w == 1 ==> x / w * w == x)
  {
  }

  lemma {:induction false} TopBitSmall(v: nat)
    requires v > 0
    ensures TopBit(v) < 0x8000 <==> v < 0x8000
  {
    var e := TopBitIsPower(v);
    ShlConstants(1);
    Pow2Strict(e, 15);
    if e < 15 {
      PowerBelow(e);
    }
  }

  /** Figures F.23 and F.24 for a DC difference: the top bit and the value less one. */
  method DecodeDcMagnitude(dec: ArithDecoder, comp: Component, st0: nat, ghost x: nat, ghost after: seq<Decision>)
    returns (ok: bool, m: nat, v: nat)
    requires dec.Valid() && st0 <= 19
    modifies dec
    ensures dec.Valid() && SameSegment(dec)
    ensures ok ==> v < 0x10000
    ensures old(dec.future) == DcMagnitude(comp, st0, x) + after ==>
              && (ok <==> x < 0x8000)
              && (ok ==> m == (if x == 0 then 0 else TopBit(x)) && v == x && dec.future == after)
  {
    hide ArithDecoder.Valid, Step, Shl, Category, CategoryEnd, Pattern, DcMagnitude, TopBit, BinAt, InArea, Fits;
    ghost var known := dec.future == DcMagnitude(comp, st0, x) + after;
    var area, st := DcArea(comp.dcTbl), st0;
    DcMagnitudeUnfold(comp, st, x, after);
    ghost var x1 := if x == 0 then 1 else x;
    TopBitSmall(x1);
    AreaFits(area);
    var bit := dec.Decode(BinAt(area, st));
    m, ok := 0, true;
    if bit != 0 {
      ok, m, st := DecodeCategory(dec, area, 20, 0, x1, Pattern(area, CategoryEnd(20, x1) + 14, x1, TopBit(x1)) + after);
      if !ok {
        v := 0;
        return;
      }
    }
    v := DecodePattern(dec, area, st + 14, m, x, after);
  }

  /** Figure F.19: one DC difference. `last` is the prediction modulo 2^16. Fails when
      the magnitude category overflows, which known differences do exactly when they
      exceed 32768 in absolute value. */
  method DecodeDc(dec: ArithDecoder, comp: Component, context0: nat, last0: nat, ghost diff: int, ghost after: seq<Decision>)
    returns (ok: bool, context: nat, last: nat)
    requires dec.Valid() && context0 <= 16
    modifies dec
    ensures dec.Valid() && SameSegment(dec)
    ensures context <= 16 && (last == last0 || last < 65536)
    ensures old(dec.future) == DcDecisions(comp, context0, diff) + after ==>
              && (ok <==> Abs(diff) <= 32768)
              && (ok ==> context == DcContext(comp, diff) && (last0 + diff - last) % 65536 == 0 && dec.future == after)
  {
    hide ArithDecoder.Valid, Step, DcDecisions, DcMagnitude, BinAt, InArea, TopBit;
    ghost var known := dec.future == DcDecisions(comp, context0, diff) + after;
    var area := DcArea(comp.dcTbl);
    DcUnfold(comp, context0, diff, after);
    AreaFits(area);
    var bit := dec.Decode(BinAt(area, context0));
    if bit == 0 {
      ok, context, last := true, 0, last0;
      return;
    }
    var sign: int := dec.Decode(BinAt(area, context0 + 1));
    var m, v;
    ok, m, v := DecodeDcMagnitude(dec, comp, context0 + 2 + sign, if diff == 0 then 0 else Abs(diff) - 1, after);
    context, last := context0, last0;
    if !ok {
      return;
    }
    context := if m < comp.low then 0 else if m > comp.high then 12 + sign * 4 else 4 + sign * 4;
    v := v + 1;
    last := (if sign == 1 then last0 - v else last0 + v) % 65536;
  }

  /** Figures F.23 and F.24 for an AC coefficient: its magnitude less one. */
  method DecodeAcMagnitude(dec: ArithDecoder, comp: Component, k: nat, ghost x: nat, ghost after: seq<Decision>)
    returns (ok: bool, v: nat)
    requires dec.Valid() && 1 <= k < 64
    modifies dec
    ensures dec.Valid() && SameSegment(dec)
    ensures old(dec.future) == AcMagnitude(comp, k, x) + after && x < 0x8000 ==> ok && v == x && dec.future == after
  {
    hide ArithDecoder.Valid, Step, Shl, Category, CategoryEnd, Pattern, AcMagnitude, TopBit, BinAt, InArea, Fits;
    ghost var known := dec.future == AcMagnitude(comp, k, x) + after && x < 0x8000;
    var area, st := AcArea(comp.acTbl), 3 * (k - 1) + 2;
    AcMagnitudeUnfold(comp, k, x, after);
    ghost var x1 := if x <= 1 then 2 else x;
    TopBitSmall(x1);
    TopBitHalved(x1);
    TopBitHalved(1);
    AreaFits(area);
    var bit := dec.Decode(BinAt(area, st));
    var m := 0;
    ok := true;
    if bit != 0 {
      m := 1;
      bit := dec.Decode(BinAt(area, st));
      if bit != 0 {
        var x2 := if k <= comp.kx then 189 else 217;
        ok, m, st := DecodeCategory(dec, area, x2, 1, x1 / 2,
                                    Pattern(area, CategoryEnd(x2, x1 / 2) + 14, x1, TopBit(x1)) + after);
        if !ok {
          v := 0;
          return;
        }
      }
    }
    v := DecodePattern(dec, area, st + 14, m, x, after);
  }

  /** The truncating store into a JCOEF. */
  function ToCoef(x: int): Coef {
    (x + 32768) % 65536 - 32768
  }

  lemma {:induction false} StoreApprox(x: Coef, al: nat)
    ensures ToCoef(PointAc(x, al) * Pow2(al)) == ApproxAc(x, al)
  {
    ApproxAcInRange(x, al);
  }

  /** Figure F.20 for the band ss..se at precision `al`. The caller supplies zeroed
      coefficients. Fails on a run past the band or an overflowing magnitude, which
      known decisions never cause. */
  method DecodeAcFirst(dec: ArithDecoder, comp: Component, block0: Block, ss: nat, se: nat, al: nat,
                       ghost target: Block, ghost after: seq<Decision>) returns (ok: bool, block: Block)
    requires dec.Valid() && 1 <= ss <= se < 64
    modifies dec
    ensures dec.Valid() && SameSegment(dec)
    ensures forall j :: 0 <= j < 64 && !(ss <= j <= se) ==> block[j] == block0[j]
    ensures old(dec.future) == AcFrom(comp, target, al, se, LastNonzero(target, al, se), ss) + after
            && (forall j :: ss <= j <= se ==> block0[j] == 0) ==>
              && ok && dec.future == after
              && forall j :: ss <= j <= se ==> block[j] == ApproxAc(target[j], al)
  {
    hide ArithDecoder.Valid, Step, Shl, AcFrom, AcRun, AcMagnitude, PointAc, ApproxAc, Pow2, LastNonzero, BinAt, InArea, Fits;
    ghost var ke := LastNonzero(target, al, se);
    ghost var known := dec.future == AcFrom(comp, target, al, se, ke, ss) + after
                       && forall j :: ss <= j <= se ==> block0[j] == 0;
    var area := AcArea(comp.acTbl);
    AreaFits(area);
    forall j | 0 <= j < 64 ensures ApproxAc(target[j], al) == 0 <==> PointAc(target[j], al) == 0 {
      ApproxAcInRange(target[j], al);
    }
    block := block0;
    ok := true;
    var k := ss;
    while k <= se
      invariant dec.Valid() && SameSegment(dec) && ss <= k && ok
      invariant forall j :: 0 <= j < 64 && !(ss <= j <= se) ==> block[j] == block0[j]
      invariant known ==> dec.future == AcFrom(comp, target, al, se, ke, k) + after && k <= se + 1
      invariant known ==> forall j :: ss <= j <= se ==> block[j] == if j < k then ApproxAc(target[j], al) else 0
      decreases 64 - k
    {
      AcFromUnfold(comp, target, al, se, ke, k, after);
      var bit := dec.Decode(BinAt(area, 3 * (k - 1)));
      if bit != 0 {
        return;
      }
      var x;
      ok, k, x := DecodeAcRun(dec, comp, se, al, k, target, ke, after);
      if !ok {
        return;
      }
      ApproxAcInRange(target[k], al);
      StoreApprox(target[k], al);
      block := block[k := ToCoef(x * Pow2(al))];
      k := k + 1;
    }
    AcFromUnfold(comp, target, al, se, ke, k, after);
  }

  /** Figures F.22 to F.24: the sign and magnitude of a nonzero coefficient. */
  method DecodeNonzero(dec: ArithDecoder, comp: Component, k: nat, ghost x0: int, ghost after: seq<Decision>)
    returns (ok: bool, x: int)
    requires dec.Valid() && 1 <= k < 64
    modifies dec
    ensures dec.Valid() && SameSegment(dec)
    ensures x0 != 0 && Abs(x0) <= 0x8000
            && old(dec.future) == [Decision(Fixed, SignBit(x0))] + (AcMagnitude(comp, k, Abs(x0) - 1) + after) ==>
              ok && x == x0 && dec.future == after
  {
    hide ArithDecoder.Valid, Step, AcMagnitude, BinAt, InArea;
    AreaFits(AcArea(0));
    var sign := dec.Decode(Fixed);
    var v: int;
    ok, v := DecodeAcMagnitude(dec, comp, k, if x0 == 0 then 0 else Abs(x0) - 1, after);
    x := if sign == 1 then -(v + 1) else v + 1;
  }

  /** Skip zero coefficients from `k0` on and read the nonzero one behind them. */
  method DecodeAcRun(dec: ArithDecoder, comp: Component, se: nat, ghost al: nat, k0: nat,
                     ghost target: Block, ghost ke: nat, ghost after: seq<Decision>) returns (ok: bool, k: nat, x: int)
    requires dec.Valid() && 1 <= k0 <= se < 64
    modifies dec
    ensures dec.Valid() && SameSegment(dec)
    ensures ok ==> k0 <= k <= se
    ensures k0 <= ke <= se && PointAc(target[ke], al) != 0
            && old(dec.future) == AcRun(comp, target, al, se, ke, k0) + after ==>
              && ok && k <= ke && x == PointAc(target[k], al)
              && dec.future == AcFrom(comp, target, al, se, ke, k + 1) + after
              && forall j :: k0 <= j < k ==> PointAc(target[j], al) == 0
  {
    hide ArithDecoder.Valid, Step, AcFrom, AcRun, AcMagnitude, PointAc, BinAt, InArea, Fits;
    ghost var known := k0 <= ke <= se && PointAc(target[ke], al) != 0
                       && dec.future == AcRun(comp, target, al, se, ke, k0) + after;
    var area := AcArea(comp.acTbl);
    AreaFits(area);
    ok, k, x := true, k0, 0;
    while true
      invariant dec.Valid() && SameSegment(dec) && k0 <= k <= se && ok
      invariant known ==> k <= ke && (forall j :: k0 <= j < k ==> PointAc(target[j], al) == 0)
      invariant known ==> dec.future == AcRun(comp, target, al, se, ke, k) + after
      decreases 64 - k
    {
      if known {
        AcRunUnfold(comp, target, al, se, ke, k, after);
      }
      var bit := dec.Decode(BinAt(area, 3 * (k - 1) + 1));
      if bit != 0 {
        break;
      }
      k := k + 1;
      if k > se {
        ok := false;
        return;
      }
    }
    ok, x := DecodeNonzero(dec, comp, k, PointAc(target[k], al),
                           if known then AcFrom(comp, target, al, se, ke, k + 1) + after else []);
  }

  // ----- refinement of AC coefficients

  /** The previous end of block: the last coefficient already known to be nonzero. */
  method PreviousEnd(block: Block, se: nat) returns (kex: nat)
    requires se < 64
    ensures kex <= se && (kex > 0 ==> block[kex] != 0)
    ensures forall j :: kex < j <= se ==> block[j] == 0
  {
    kex := se;
    while kex > 0
      invariant kex <= se && forall j :: kex < j <= se ==> block[j] == 0
    {
      if block[kex] != 0 {
        return;
      }
      kex := kex - 1;
    }
  }

  /** Encoder and decoder agree, inside the band, on which coefficients lie behind the
      previous end of block, although they look at different data below the band. */
  lemma {:induction false} PreviousEndsAgree(target: Block, block: Block, ss: nat, se: nat, al: nat, kexD: nat, k: nat)
    requires 1 <= ss <= k <= se < 64
    requires forall j :: ss <= j <= se ==> block[j] == ApproxAc(target[j], al + 1)
    requires kexD <= se && (kexD > 0 ==> block[kexD] != 0) && forall j :: kexD < j <= se ==> block[j] == 0
    ensures k > kexD <==> k > LastNonzero(target, al + 1, LastNonzero(target, al, se))
  {
    hide PointAc, ApproxAc, Pow2;
    forall j | ss <= j <= se
      ensures block[j] != 0 <==> PointAc(target[j], al + 1) != 0
      ensures PointAc(target[j], al + 1) != 0 ==> PointAc(target[j], al) != 0
    {
      ApproxAcInRange(target[j], al + 1);
      ApproxAcRefines(target[j], al);
    }
  }

  /** `*thiscoef += m1` or `*thiscoef += p1` */
  function Corrected(c: Coef, al: nat): Coef {
    ToCoef(if c < 0 then c - Pow2(al) else c + Pow2(al))
  }

  /** `*thiscoef = m1` or `*thiscoef = p1` */
  function NewCoef(sign: Bit, al: nat): Coef {
    ToCoef(if sign == 1 then 0 - Pow2(al) else Pow2(al))
  }

  /** The two updates of a refinement scan move a coefficient to the next precision. */
  lemma {:induction false} RefinementValues(x: Coef, c: Coef, al: nat)
    requires c == ApproxAc(x, al + 1)
    ensures var v := Abs(PointAc(x, al));
            && (c != 0 <==> v > 1)
            && (v == 0 ==> ApproxAc(x, al) == 0)
            && (v == 1 ==> ApproxAc(x, al) == NewCoef(SignBit(x), al))
            && (v > 1 ==> ApproxAc(x, al) == if v % 2 == 1 then Corrected(c, al) else c)
  {
    hide Pow2, PointAc, ApproxAc;
    ApproxAcInRange(x, al);
    ApproxAcRefines(x, al);
  }

  /** A run of refinements over `block`, started at `k0`. */
  datatype Refinement = Refining(comp: Component, target: Block, block: Block, se: nat, al: nat,
                                 ke: nat, kex: nat, k0: nat, after: seq<Decision>)

  ghost predicate OnRun(r: Refinement, k: nat, future: seq<Decision>) {
    && 1 <= r.k0 <= k <= r.ke <= r.se < 64 && r.kex <= r.ke && PointAc(r.target[r.ke], r.al) != 0
    && (forall j :: k <= j <= r.se ==> r.block[j] == ApproxAc(r.target[j], r.al + 1))
    && (forall j :: r.k0 <= j < k ==> r.block[j] == ApproxAc(r.target[j], r.al))
    && future == RefineRun(r.comp, r.target, r.al, r.se, r.ke, r.kex, k) + r.after
  }

  /** What the decisions at `k` are, and what they make of the coefficient. */
  lemma {:induction false} OnRunStep(r: Refinement, k: nat, future: seq<Decision>)
    returns (v: nat, todo: seq<Decision>, zeros: seq<Decision>)
    requires OnRun(r, k, future)
    ensures v == Abs(PointAc(r.target[k], r.al)) && (r.block[k] != 0 <==> v > 1)
    ensures v > 1 ==>
              && future == [Choose(AcArea(r.comp.acTbl), 3 * (k - 1) + 2, v % 2)] + todo
              && ApproxAc(r.target[k], r.al) == if v % 2 == 1 then Corrected(r.block[k], r.al) else r.block[k]
    ensures v <= 1 ==> future == [Choose(AcArea(r.comp.acTbl), 3 * (k - 1) + 1, if v == 0 then 0 else 1)] + zeros
    ensures v == 1 ==>
              && zeros == [Decision(Fixed, SignBit(r.target[k]))] + todo
              && ApproxAc(r.target[k], r.al) == NewCoef(SignBit(r.target[k]), r.al)
    ensures v == 0 ==> OnRun(r, k + 1, zeros)
    ensures v != 0 ==> todo == RefineFrom(r.comp, r.target, r.al, r.se, r.ke, r.kex, k + 1) + r.after
  {
    hide RefineFrom, RefineRun, PointAc, ApproxAc, Corrected, NewCoef, BinAt;
    RefineRunUnfold(r.comp, r.target, r.al, r.se, r.ke, r.kex, k, r.after);
    RefinementValues(r.target[k], r.block[k], r.al);
    v := Abs(PointAc(r.target[k], r.al));
    todo := RefineFrom(r.comp, r.target, r.al, r.se, r.ke, r.kex, k + 1) + r.after;
    zeros := if v == 0 then RefineRun(r.comp, r.target, r.al, r.se, r.ke, r.kex, k + 1) + r.after
             else [Decision(Fixed, SignBit(r.target[k]))] + todo;
  }

  /** Correct the coefficient at `k`, or skip zeros and make a new nonzero one. */
  method DecodeRefineRun(dec: ArithDecoder, comp: Component, block: Block, se: nat, al: nat, k0: nat,
                         ghost target: Block, ghost ke: nat, ghost kex: nat, ghost after: seq<Decision>)
    returns (ok: bool, k: nat, x: Coef)
    requires dec.Valid() && 1 <= k0 <= se < 64
    modifies dec
    ensures dec.Valid() && SameSegment(dec)
    ensures ok ==> k0 <= k <= se
    ensures OnRun(Refining(comp, target, block, se, al, ke, kex, k0, after), k0, old(dec.future)) ==>
              && ok && k <= ke && x == ApproxAc(target[k], al)
              && dec.future == RefineFrom(comp, target, al, se, ke, kex, k + 1) + after
              && forall j :: k0 <= j < k ==> block[j] == ApproxAc(target[j], al)
  {
    hide ArithDecoder.Valid, Step, OnRun, RefineFrom, PointAc, ApproxAc, Corrected, NewCoef, BinAt, InArea, Fits;
    ghost var r := Refining(comp, target, block, se, al, ke, kex, k0, after);
    ghost var known := OnRun(r, k0, dec.future);
    var area := AcArea(comp.acTbl);
    AreaFits(area);
    ok, k, x := true, k0, 0;
    while true
      invariant dec.Valid() && SameSegment(dec) && k0 <= k <= se && ok
      invariant known ==> OnRun(r, k, dec.future)
      decreases 64 - k
    {
      ghost var v: nat, todo: seq<Decision>, zeros: seq<Decision> := 0, [], [];
      if known {
        v, todo, zeros := OnRunStep(r, k, dec.future);
        OnRunBounds(r, k, dec.future);
      }
      if block[k] != 0 {
        var bit := Take(dec, BinAt(area, 3 * (k - 1) + 2), known, v % 2, todo);
        x := block[k];
        if bit != 0 {
          x := Corrected(block[k], al);
        }
        return;
      }
      var bit := Take(dec, BinAt(area, 3 * (k - 1) + 1), known, if v == 0 then 0 else 1, zeros);
      if bit != 0 {
        var sign := Take(dec, Fixed, known, SignBit(target[k]), todo);
        x := NewCoef(sign, al);
        return;
      }
      k := k + 1;
      if known {
        OnRunBounds(r, k, dec.future);
      }
      if k > se {
        ok := false;
        return;
      }
    }
  }

  lemma {:induction false} OnRunBounds(r: Refinement, k: nat, future: seq<Decision>)
    requires OnRun(r, k, future)
    ensures r.k0 <= k <= r.ke <= r.se < 64 && r.kex <= r.ke && PointAc(r.target[r.ke], r.al) != 0
    ensures forall j :: r.k0 <= j < k ==> r.block[j] == ApproxAc(r.target[j], r.al)
  {
  }

  /** Refinement of the band ss..se from precision al + 1 to `al`. */
  method DecodeAcRefine(dec: ArithDecoder, comp: Component, block0: Block, ss: nat, se: nat, al: nat,
                        ghost target: Block, ghost after: seq<Decision>) returns (ok: bool, block: Block)
    requires dec.Valid() && 1 <= ss <= se < 64
    modifies dec
    ensures dec.Valid() && SameSegment(dec)
    ensures forall j :: 0 <= j < 64 && !(ss <= j <= se) ==> block[j] == block0[j]
    ensures var ke := LastNonzero(target, al, se);
            old(dec.future) == RefineFrom(comp, target, al, se, ke, LastNonzero(target, al + 1, ke), ss) + after
            && (forall j :: ss <= j <= se ==> block0[j] == ApproxAc(target[j], al + 1)) ==>
              && ok && dec.future == after
              && forall j :: ss <= j <= se ==> block[j] == ApproxAc(target[j], al)
  {
    hide ArithDecoder.Valid, Step, RefineFrom, RefineRun, PointAc, ApproxAc, Pow2, LastNonzero, BinAt, InArea, Fits;
    ghost var ke := LastNonzero(target, al, se);
    ghost var kexE := LastNonzero(target, al + 1, ke);
    ghost var known := dec.future == RefineFrom(comp, target, al, se, ke, kexE, ss) + after
                       && forall j :: ss <= j <= se ==> block0[j] == ApproxAc(target[j], al + 1);
    var area := AcArea(comp.acTbl);
    AreaFits(area);
    var kex := PreviousEnd(block0, se);
    block := block0;
    ok := true;
    var k := ss;
    while k <= se
      invariant dec.Valid() && SameSegment(dec) && ss <= k <= se + 1 && ok
      invariant forall j :: 0 <= j < 64 && !(ss <= j < k) ==> block[j] == block0[j]
      invariant known ==> dec.future == RefineFrom(comp, target, al, se, ke, kexE, k) + after
      invariant known ==> forall j :: ss <= j < k <= se + 1 ==> block[j] == ApproxAc(target[j], al)
      decreases 64 - k
    {
      if known {
        PreviousEndsAgree(target, block0, ss, se, al, kex, k);
        RefineFromUnfold(comp, target, al, se, ke, kexE, k, after);
      }
      if k > kex {
        var bit := dec.Decode(BinAt(area, 3 * (k - 1)));
        if bit != 0 {
          BeyondEnd(target, block0, al, ke, k, se);
          return;
        }
      }
      var x;
      ok, k, x := DecodeRefineRun(dec, comp, block, se, al, k, target, ke, kexE, after);
      if !ok {
        return;
      }
      block := block[k := x];
      k := k + 1;
    }
    if known {
      RefineFromUnfold(comp, target, al, se, ke, kexE, k, after);
    }
  }

  lemma {:induction false} BeyondEnd(target: Block, block: Block, al: nat, ke: nat, k: nat, se: nat)
    requires se < 64
    ensures ke < k && (forall j :: ke < j <= se ==> PointAc(target[j], al) == 0)
            && (forall j :: k <= j <= se ==> block[j] == ApproxAc(target[j], al + 1)) ==>
              forall j :: k <= j <= se ==> block[j] == ApproxAc(target[j], al)
  {
    hide PointAc, ApproxAc;
    forall j | k <= j <= se && PointAc(target[j], al) == 0
      ensures ApproxAc(target[j], al) == ApproxAc(target[j], al + 1)
    {
      ApproxAcRefines(target[j], al);
      ApproxAcInRange(target[j], al);
    }
  }
}
