/** How much of the statistics areas is ever used: 49 bins of a component's DC table by the
    DC part of a block and 245 bins of its AC table by the AC part. */
module BinBounds {
  import opened Shifts
  import opened ProbabilityTable
  import opened IntervalCoder
  import opened Binarisation
  import opened ScanCoding

  const DC_BINS_USED := 49
  const AC_BINS_USED := 245

  /** The bins of one area, and the one with a fixed estimate. */
  predicate Used(area: Area, bin: Bin) {
    match area
    case DcArea(tbl) => bin.Fixed? || (bin.Dc? && bin.tbl == tbl && bin.offset < DC_BINS_USED)
    case AcArea(tbl) => bin.Fixed? || (bin.Ac? && bin.tbl == tbl && bin.offset < AC_BINS_USED)
  }

  predicate AllUsed(area: Area, ds: seq<Decision>) {
    forall i :: 0 <= i < |ds| ==> Used(area, ds[i].bin)
  }

  lemma {:induction false} CategoryUsed(area: Area, st: nat, v: nat, e: nat)
    requires 0 < v < Pow2(e + 1) && Used(area, BinAt(area, st + e))
    ensures AllUsed(area, Category(area, st, v))
    decreases v
  {
    if v > 1 {
      CategoryUsed(area, st + 1, v / 2, e - 1);
    }
  }

  lemma {:induction false} PatternUsed(area: Area, st: nat, v: nat, m: nat)
    requires Used(area, BinAt(area, st))
    ensures AllUsed(area, Pattern(area, st, v, m))
    decreases m
  {
    if m > 1 {
      PatternUsed(area, st, v, m / 2);
    }
  }

  lemma {:induction false} DcUsed(comp: Component, context: nat, diff: int)
    requires context <= 16 && Abs(diff) <= 32768
    ensures AllUsed(DcArea(comp.dcTbl), DcDecisions(comp, context, diff))
  {
    var area := DcArea(comp.dcTbl);
    if diff != 0 && Abs(diff) > 1 {
      var v := Abs(diff) - 1;
      ShlConstants(1);
      CategoryUsed(area, 20, v, 14);
      CategoryEndBound(20, v, 14);
      PatternUsed(area, CategoryEnd(20, v) + 14, v, TopBit(v));
      hide Category, Pattern, TopBit, CategoryEnd;
    }
  }

  lemma {:induction false} AcMagnitudeUsed(comp: Component, k: nat, v: nat)
    requires 1 <= k < 64 && v < 32768
    ensures AllUsed(AcArea(comp.acTbl), AcMagnitude(comp, k, v))
  {
    var area, x2 := AcArea(comp.acTbl), if k <= comp.kx then 189 else 217;
    if v > 1 {
      ShlConstants(1);
      CategoryUsed(area, x2, v / 2, 13);
      CategoryEndBound(x2, v / 2, 13);
      PatternUsed(area, CategoryEnd(x2, v / 2) + 14, v, TopBit(v));
      hide Category, Pattern, TopBit, CategoryEnd;
    }
  }

  lemma {:induction false} AcFromUsed(comp: Component, block: Block, al: nat, se: nat, ke: nat, k: nat)
    requires 1 <= k && ke <= se < 64 && (1 <= ke ==> PointAc(block[ke], al) != 0)
    ensures AllUsed(AcArea(comp.acTbl), AcFrom(comp, block, al, se, ke, k))
    decreases 64 - k, 1
  {
    hide PointAc;
    if k <= ke {
      AcRunUsed(comp, block, al, se, ke, k);
      hide AcRun;
    }
  }

  lemma {:induction false} AcRunUsed(comp: Component, block: Block, al: nat, se: nat, ke: nat, k: nat)
    requires 1 <= k <= ke && ke <= se < 64 && PointAc(block[ke], al) != 0
    ensures AllUsed(AcArea(comp.acTbl), AcRun(comp, block, al, se, ke, k))
    decreases 64 - k, 0
  {
    hide PointAc;
    var x := PointAc(block[k], al);
    if x == 0 {
      AcRunUsed(comp, block, al, se, ke, k + 1);
    } else {
      AcMagnitudeUsed(comp, k, Abs(x) - 1);
      AcFromUsed(comp, block, al, se, ke, k + 1);
      hide AcFrom, AcMagnitude;
    }
  }

  lemma {:induction false} RefineFromUsed(comp: Component, block: Block, al: nat, se: nat, ke: nat, kex: nat, k: nat)
    requires 1 <= k && kex <= ke <= se < 64 && (1 <= ke ==> PointAc(block[ke], al) != 0)
    ensures AllUsed(AcArea(comp.acTbl), RefineFrom(comp, block, al, se, ke, kex, k))
    decreases 64 - k, 1
  {
    hide PointAc;
    if k <= ke {
      RefineRunUsed(comp, block, al, se, ke, kex, k);
      hide RefineRun;
    }
  }

  lemma {:induction false} RefineRunUsed(comp: Component, block: Block, al: nat, se: nat, ke: nat, kex: nat, k: nat)
    requires 1 <= k <= ke && kex <= ke <= se < 64 && PointAc(block[ke], al) != 0
    ensures AllUsed(AcArea(comp.acTbl), RefineRun(comp, block, al, se, ke, kex, k))
    decreases 64 - k, 0
  {
    hide PointAc;
    if Abs(PointAc(block[k], al)) == 0 {
      RefineRunUsed(comp, block, al, se, ke, kex, k + 1);
    } else {
      RefineFromUsed(comp, block, al, se, ke, kex, k + 1);
      hide RefineFrom;
    }
  }

  /** Every decision of a block stays within the used part of its own area, unless its DC
      difference overflows the magnitude categories. */
  lemma {:induction false} BlockUsed(scan: Scan, st: DcState, c: nat, block: Block)
    requires ValidScan(scan) && ValidState(scan, st) && c < |scan.comps| && Smooth(scan, st, c, block)
    ensures AllUsed(DcArea(scan.comps[c].dcTbl), DcPart(scan, st, c, block))
    ensures AllUsed(AcArea(scan.comps[c].acTbl), AcPart(scan, c, block))
  {
    var first := if scan.ss == 0 then 1 else scan.ss;
    var ke := LastNonzero(block, scan.al, scan.se);
    hide PointAc, PointDc, LastNonzero, DcDecisions, AcFrom, RefineFrom;
    if PredictsDc(scan) {
      DcUsed(scan.comps[c], st.context[c], DcDiff(scan, st, c, block));
    }
    if scan.se != 0 {
      if scan.ah == 0 {
        AcFromUsed(scan.comps[c], block, scan.al, scan.se, ke, first);
      } else {
        RefineFromUsed(scan.comps[c], block, scan.al, scan.se, ke, LastNonzero(block, scan.ah, ke), first);
      }
    }
  }
}
