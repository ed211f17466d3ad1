/** A whole image through all scans of an accepted script: what every coefficient is
    known to after each scan, and exactly when the image comes back. */
module ImageTranscoding {
  import opened Shifts
  import opened Binarisation
  import opened ScanCoding
  import opened EntropyEncoding
  import opened EntropyDecoding
  import opened ArithTranscoding
  import opened ScanScript

  /** The coefficient arrays of all components. */
  type Coefs = seq<seq<Block>>

  /** A place in an MCU: a block of the image, or one that pads an interleaved MCU behind
      the right or the bottom edge. What it pads with is up to the encoder, and may change
      from scan to scan. */
  datatype Slot = Stored(x: nat) | Padding(contents: Block)

  /** How one scan is coded: conditioning and tables of its components, the component
      of each block in an MCU, and the slots every MCU goes through. */
  datatype Layout = Layout(comps: seq<Component>, membership: seq<nat>, order: seq<seq<Slot>>,
                           restartInterval: nat, end: End)

  predicate SameShape(a: Coefs, b: Coefs) {
    |a| == |b| && forall c :: 0 <= c < |a| ==> |a[c]| == |b[c]|
  }

  /** Block `b` of MCU `m`: its component and its index there. */
  function Comp(info: ScanInfo, layout: Layout, b: int): int
    requires 0 <= b < |layout.membership| && layout.membership[b] < |info.componentIndex|
  {
    info.componentIndex[layout.membership[b]]
  }

  predicate IsSlot(layout: Layout, m: int, b: int) {
    0 <= m < |layout.order| && 0 <= b < |layout.membership|
  }

  predicate IsStored(layout: Layout, m: int, b: int) {
    IsSlot(layout, m, b) && b < |layout.order[m]| && layout.order[m][b].Stored?
  }

  /** Only interleaved scans are padded. */
  ghost predicate PaddedIfInterleaved(info: ScanInfo, layout: Layout) {
    forall m, b :: IsSlot(layout, m, b) && !IsStored(layout, m, b) ==> info.compsInScan > 1
  }

  ghost predicate SlotsFit(info: ScanInfo, layout: Layout, coefs: Coefs) {
    && |layout.comps| == info.compsInScan <= |info.componentIndex|
    && (forall b :: 0 <= b < |layout.membership| ==>
          layout.membership[b] < |layout.comps| && 0 <= Comp(info, layout, b) < |coefs|)
    && (forall m :: 0 <= m < |layout.order| ==> |layout.order[m]| == |layout.membership|)
    && forall m, b :: IsStored(layout, m, b) ==> layout.order[m][b].x < |coefs[Comp(info, layout, b)]|
  }

  /** The slot holds block `x` of component `c`. */
  ghost predicate Holds(info: ScanInfo, layout: Layout, coefs: Coefs, m: int, b: int, c: int, x: int)
    requires SlotsFit(info, layout, coefs)
  {
    IsStored(layout, m, b) && Comp(info, layout, b) == c && layout.order[m][b].x == x
  }

  /** Every block of the scan's components is visited exactly once. */
  ghost predicate VisitsOnce(info: ScanInfo, layout: Layout, coefs: Coefs)
    requires SlotsFit(info, layout, coefs)
  {
    && (forall m, b, m2, b2 ::
          (IsStored(layout, m, b) && Holds(info, layout, coefs, m2, b2, Comp(info, layout, b), layout.order[m][b].x)) ==>
            m == m2 && b == b2)
    && forall c, x :: 0 <= c < |coefs| && 0 <= x < |coefs[c]| && Covers(info, c, info.ss) ==> Visited(info, layout, coefs, c, x)
  }

  ghost predicate Visited(info: ScanInfo, layout: Layout, coefs: Coefs, c: int, x: int)
    requires SlotsFit(info, layout, coefs)
  {
    exists m, b :: Holds(info, layout, coefs, m, b, c, x)
  }

  ghost predicate ValidLayout(info: ScanInfo, layout: Layout, coefs: Coefs) {
    && SlotsFit(info, layout, coefs) && VisitsOnce(info, layout, coefs)
    && (info.compsInScan == 1 ==> layout.membership == [0]) && PaddedIfInterleaved(info, layout)
    && 0 < layout.end.marker < 255
  }

  function ScanOf(progressive: bool, info: ScanInfo, layout: Layout): Scan
    requires 0 <= info.ss && 0 <= info.se && 0 <= info.ah && 0 <= info.al
  {
    Scan(layout.comps, layout.membership, progressive, info.ss, info.se, info.ah, info.al, layout.restartInterval)
  }

  /** The MCUs a scan goes through. */
  function Gather(info: ScanInfo, layout: Layout, coefs: Coefs): (mcus: seq<Mcu>)
    requires SlotsFit(info, layout, coefs)
    ensures Fill(layout, mcus)
    ensures forall m, b :: IsSlot(layout, m, b) ==>
              mcus[m][b] == match layout.order[m][b]
                            case Stored(x) => coefs[Comp(info, layout, b)][x]
                            case Padding(contents) => contents
  {
    seq(|layout.order|, m requires 0 <= m < |layout.order| =>
      seq(|layout.membership|, b requires 0 <= b < |layout.membership| =>
        assert IsSlot(layout, m, b);
        match layout.order[m][b]
        case Stored(x) =>
          assert IsStored(layout, m, b);
          coefs[Comp(info, layout, b)][x]
        case Padding(contents) => contents))
  }

  /** What the decoder has in these places. Where it keeps padding at all, it has the DC
      value from the scans before. */
  function GatherPrior(info: ScanInfo, layout: Layout, image: Coefs): (mcus: seq<Mcu>)
    requires SlotsFit(info, layout, image) && 0 <= info.ah <= MAX_AH_AL
    ensures Fill(layout, mcus)
    ensures forall m, b :: IsSlot(layout, m, b) ==>
              mcus[m][b] == match layout.order[m][b]
                            case Stored(x) => image[Comp(info, layout, b)][x]
                            case Padding(contents) => PaddingPrior(contents, info.ah)
  {
    seq(|layout.order|, m requires 0 <= m < |layout.order| =>
      seq(|layout.membership|, b requires 0 <= b < |layout.membership| =>
        assert IsSlot(layout, m, b);
        match layout.order[m][b]
        case Stored(x) =>
          assert IsStored(layout, m, b);
          image[Comp(info, layout, b)][x]
        case Padding(contents) => PaddingPrior(contents, info.ah)))
  }

  function PaddingPrior(contents: Block, ah: nat): Block
    requires ah <= MAX_AH_AL
  {
    ApproxInRange(contents[0], 0, ah);
    var none := seq(64, _ => 0);
    if ah == 0 then none else none[0 := Approx(contents[0], 0, ah)]
  }

  // ----- a decoded scan in its place in the image

  predicate Earlier(m: int, b: int, m1: int, b1: int) {
    m < m1 || (m == m1 && b < b1)
  }

  /** The slots before `b1` of MCU `m1` are stored; everything else is as before. */
  ghost predicate StoredTo(info: ScanInfo, layout: Layout, before: Coefs, mcus: seq<Mcu>, after: Coefs, m1: nat, b1: nat)
    requires SlotsFit(info, layout, before) && Fill(layout, mcus)
  {
    && SameShape(before, after)
    && (forall m, b :: (IsStored(layout, m, b) && Earlier(m, b, m1, b1)) ==>
          after[Comp(info, layout, b)][layout.order[m][b].x] == mcus[m][b])
    && forall c, x :: 0 <= c < |after| && 0 <= x < |after[c]| ==>
         after[c][x] == before[c][x] || exists m, b :: Holds(info, layout, before, m, b, c, x) && Earlier(m, b, m1, b1)
  }

  predicate Fill(layout: Layout, mcus: seq<Mcu>) {
    |mcus| == |layout.order| && forall m :: 0 <= m < |mcus| ==> |mcus[m]| == |layout.membership|
  }

  method Store(info: ScanInfo, layout: Layout, before: Coefs, mcus: seq<Mcu>) returns (after: Coefs)
    requires SlotsFit(info, layout, before) && VisitsOnce(info, layout, before) && Fill(layout, mcus)
    ensures StoredTo(info, layout, before, mcus, after, |mcus|, 0)
  {
    hide SlotsFit, VisitsOnce, StoredTo, Covers;
    after := before;
    NothingStored(info, layout, before, mcus);
    for m := 0 to |mcus|
      invariant StoredTo(info, layout, before, mcus, after, m, 0)
    {
      for b := 0 to |layout.membership|
        invariant StoredTo(info, layout, before, mcus, after, m, b)
      {
        SlotInside(info, layout, before, mcus, after, m, b);
        match layout.order[m][b]
        case Padding(_) =>
          SkipOne(info, layout, before, mcus, after, m, b);
        case Stored(x) =>
          var c := Comp(info, layout, b);
          StoreOne(info, layout, before, mcus, after, m, b);
          after := after[c := after[c][x := mcus[m][b]]];
      }
      RowStored(info, layout, before, mcus, after, m);
    }
  }

  lemma {:induction false} NothingStored(info: ScanInfo, layout: Layout, before: Coefs, mcus: seq<Mcu>)
    requires SlotsFit(info, layout, before) && Fill(layout, mcus)
    ensures StoredTo(info, layout, before, mcus, before, 0, 0)
  {
  }

  lemma {:induction false} SlotInside(info: ScanInfo, layout: Layout, before: Coefs, mcus: seq<Mcu>, after: Coefs, m: nat, b: nat)
    requires SlotsFit(info, layout, before) && Fill(layout, mcus)
    requires IsSlot(layout, m, b) && StoredTo(info, layout, before, mcus, after, m, b)
    ensures layout.membership[b] < |info.componentIndex| && 0 <= Comp(info, layout, b) < |after| && b < |layout.order[m]|
    ensures IsStored(layout, m, b) ==> layout.order[m][b].x < |after[Comp(info, layout, b)]|
    ensures IsStored(layout, m, b) <==> layout.order[m][b].Stored?
  {
  }

  lemma {:induction false} SkipOne(info: ScanInfo, layout: Layout, before: Coefs, mcus: seq<Mcu>, after: Coefs, m: nat, b: nat)
    requires SlotsFit(info, layout, before) && Fill(layout, mcus)
    requires IsSlot(layout, m, b) && !IsStored(layout, m, b) && StoredTo(info, layout, before, mcus, after, m, b)
    ensures StoredTo(info, layout, before, mcus, after, m, b + 1)
  {
    forall m2, b2 | IsStored(layout, m2, b2) && Earlier(m2, b2, m, b + 1)
      ensures Earlier(m2, b2, m, b)
    {
    }
    forall m2, b2 | Earlier(m2, b2, m, b)
      ensures Earlier(m2, b2, m, b + 1)
    {
    }
  }

  lemma {:induction false} StoreOne(info: ScanInfo, layout: Layout, before: Coefs, mcus: seq<Mcu>, after: Coefs, m: nat, b: nat)
    requires SlotsFit(info, layout, before) && VisitsOnce(info, layout, before) && Fill(layout, mcus)
    requires IsStored(layout, m, b) && StoredTo(info, layout, before, mcus, after, m, b)
    ensures var c, x := Comp(info, layout, b), layout.order[m][b].x;
            && 0 <= c < |after| && x < |after[c]|
            && StoredTo(info, layout, before, mcus, after[c := after[c][x := mcus[m][b]]], m, b + 1)
  {
    var c, x := Comp(info, layout, b), layout.order[m][b].x;
    var next := after[c := after[c][x := mcus[m][b]]];
    assert Holds(info, layout, before, m, b, c, x);
    forall m2, b2 | IsStored(layout, m2, b2) && Earlier(m2, b2, m, b + 1)
      ensures next[Comp(info, layout, b2)][layout.order[m2][b2].x] == mcus[m2][b2]
    {
      var c2, x2 := Comp(info, layout, b2), layout.order[m2][b2].x;
      assert c2 == c && x2 == x ==> Holds(info, layout, before, m, b, c2, x2);
    }
  }

  lemma {:induction false} RowStored(info: ScanInfo, layout: Layout, before: Coefs, mcus: seq<Mcu>, after: Coefs, m: nat)
    requires SlotsFit(info, layout, before) && Fill(layout, mcus)
    requires m < |mcus| && StoredTo(info, layout, before, mcus, after, m, |layout.membership|)
    ensures StoredTo(info, layout, before, mcus, after, m + 1, 0)
  {
    forall m2, b2 | IsStored(layout, m2, b2) && Earlier(m2, b2, m + 1, 0)
      ensures Earlier(m2, b2, m, |layout.membership|)
    {
    }
  }

  // ----- what the decoder knows of the image

  /** A coefficient `x` at position `k` after scans that took it down to bit `last`. */
  function Known(x: Coef, k: nat, last: int): int {
    if last < 0 then 0 else Approx(x, k, last)
  }

  ghost predicate KnownBlock(scans: seq<ScanInfo>, i: nat, c: int, target: Block, block: Block)
    requires i <= |scans|
  {
    forall k :: 0 <= k < 64 ==> block[k] == Known(target[k], k, LastBit(scans, i, c, k))
  }

  ghost predicate KnownImage(scans: seq<ScanInfo>, i: nat, coefs: Coefs, image: Coefs)
    requires i <= |scans|
  {
    && SameShape(coefs, image)
    && forall c, x :: 0 <= c < |coefs| && 0 <= x < |coefs[c]| ==> KnownBlock(scans, i, c, coefs[c][x], image[c][x])
  }

  /** In a sequential script a component is known in full or not at all. */
  lemma {:induction false} SequentialLast(n: nat, scans: seq<ScanInfo>, i: nat, c: int, k: nat)
    requires WellFormed(scans) && scans != [] && !Progressive(scans) && i <= |scans| && ScansOk(n, scans, i) && k < 64
    ensures LastBit(scans, i, c, k) == LastBit(scans, i, c, 0)
  {
    if i > 0 {
      assert ScanOk(n, scans, i - 1);
      SequentialLast(n, scans, i - 1, c, k);
    }
  }

  /** The rule a coefficient of a valid scan obeys, in either mode. */
  lemma {:induction false} CoveredStep(n: nat, scans: seq<ScanInfo>, i: nat, c: int, k: nat)
    requires WellFormed(scans) && scans != [] && i < |scans| && ScansOk(n, scans, i + 1)
    requires k < 64 && Covers(scans[i], c, scans[i].ss) && scans[i].ss <= k <= scans[i].se
    ensures StepOk(LastBit(scans, i, c, k), scans[i].ah, scans[i].al)
  {
    hide LastBit;
    assert ScanOk(n, scans, i);
    assert Covers(scans[i], c, k);
    if !Progressive(scans) {
      SequentialLast(n, scans, i, c, k);
    }
  }

  /** The validator admits only scans the coders are made for. */
  lemma {:induction false} AcceptedScanIsValid(n: nat, scans: seq<ScanInfo>, i: nat, layout: Layout, coefs: Coefs)
    requires WellFormed(scans) && scans != [] && i < |scans| && ScansOk(n, scans, i + 1)
    requires ValidLayout(scans[i], layout, coefs)
    ensures scans[i].ss >= 0 && scans[i].se >= 0 && 0 <= scans[i].ah <= MAX_AH_AL && scans[i].al >= 0
    ensures ValidScan(ScanOf(Progressive(scans), scans[i], layout))
  {
    hide LastBit, VisitsOnce;
    var info := scans[i];
    assert ScanOk(n, scans, i);
    assert Covers(info, info.componentIndex[0], info.ss);
    CoveredStep(n, scans, i, info.componentIndex[0], info.ss);
  }

  lemma {:induction false} BlockPrior(n: nat, scans: seq<ScanInfo>, i: nat, scan: Scan, c: int, target: Block, prior: Block)
    requires WellFormed(scans) && scans != [] && i < |scans| && ScansOk(n, scans, i + 1)
    requires Covers(scans[i], c, scans[i].ss) && KnownBlock(scans, i, c, target, prior)
    requires scan.ss == scans[i].ss && scan.se == scans[i].se && scan.ah == scans[i].ah && scan.al == scans[i].al
    ensures PriorKnown(scan, target, prior)
  {
    hide LastBit, Covers, Approx, ScansOk;
    forall k | scan.ss <= k <= scan.se && k < 64
      ensures prior[k] == if scan.ah == 0 then 0 else Approx(target[k], k, scan.ah)
    {
      CoveredStep(n, scans, i, c, k);
    }
  }

  lemma {:induction false} BlockAfter(scans: seq<ScanInfo>, i: nat, scan: Scan, c: int, target: Block, prior: Block, block: Block)
    requires i < |scans| && Covers(scans[i], c, scans[i].ss)
    requires KnownBlock(scans, i, c, target, prior) && Updated(scan, target, prior, block)
    requires scan.ss == scans[i].ss && scan.se == scans[i].se && scan.al == scans[i].al
    ensures KnownBlock(scans, i + 1, c, target, block)
  {
    hide Approx;
    forall k | 0 <= k < 64
      ensures block[k] == Known(target[k], k, LastBit(scans, i + 1, c, k))
    {
      assert Covers(scans[i], c, k) <==> scan.ss <= k <= scan.se;
    }
  }

  lemma {:induction false} BlockUntouched(scans: seq<ScanInfo>, i: nat, c: int, target: Block, block: Block)
    requires i < |scans| && !Covers(scans[i], c, scans[i].ss) && scans[i].ss <= scans[i].se
    requires KnownBlock(scans, i, c, target, block)
    ensures KnownBlock(scans, i + 1, c, target, block)
  {
    hide Approx;
    assert forall k :: !Covers(scans[i], c, k);
  }

  lemma {:induction false} LayoutOfShape(info: ScanInfo, layout: Layout, coefs: Coefs, image: Coefs)
    requires ValidLayout(info, layout, coefs) && SameShape(coefs, image)
    ensures ValidLayout(info, layout, image)
  {
    forall m, b | IsStored(layout, m, b)
      ensures layout.order[m][b].x < |image[Comp(info, layout, b)]|
    {
    }
    forall m, b, c, x
      ensures Holds(info, layout, coefs, m, b, c, x) <==> Holds(info, layout, image, m, b, c, x)
    {
    }
    forall c, x | 0 <= c < |image| && 0 <= x < |image[c]| && Covers(info, c, info.ss)
      ensures Visited(info, layout, image, c, x)
    {
      assert Visited(info, layout, coefs, c, x);
    }
  }

  /** Every slot belongs to a component of the scan. */
  lemma {:induction false} SlotCovered(n: nat, info: ScanInfo, layout: Layout, coefs: Coefs, m: nat, b: nat)
    requires ValidLayout(info, layout, coefs) && IsSlot(layout, m, b) && info.ss <= info.se
    ensures Covers(info, Comp(info, layout, b), info.ss)
  {
  }

  lemma {:induction false} ImagePrior(n: nat, scans: seq<ScanInfo>, i: nat, layout: Layout, coefs: Coefs, image: Coefs)
    requires WellFormed(scans) && scans != [] && i < |scans| && ScansOk(n, scans, i + 1)
    requires ValidLayout(scans[i], layout, coefs) && ValidLayout(scans[i], layout, image) && KnownImage(scans, i, coefs, image)
    requires scans[i].ss >= 0 && scans[i].se >= 0 && 0 <= scans[i].ah <= MAX_AH_AL && scans[i].al >= 0
    ensures var scan := ScanOf(Progressive(scans), scans[i], layout);
            var mcus, prior := Gather(scans[i], layout, coefs), GatherPrior(scans[i], layout, image);
            ValidMcus(scan, mcus) && ValidMcus(scan, prior) && PriorScanKnown(scan, mcus, prior)
  {
    hide LastBit, VisitsOnce, KnownBlock, PriorKnown, Covers, ScansOk;
    var info := scans[i];
    var scan := ScanOf(Progressive(scans), info, layout);
    var mcus, prior := Gather(info, layout, coefs), GatherPrior(info, layout, image);
    forall m, b | 0 <= m < |mcus| && 0 <= b < |mcus[m]|
      ensures PriorKnown(scan, mcus[m][b], prior[m][b])
    {
      BandNotEmpty(n, scans, i);
      assert IsSlot(layout, m, b);
      match layout.order[m][b]
      case Padding(contents) =>
        assert !IsStored(layout, m, b);
        PaddingKnown(n, scans, i, scan, contents);
      case Stored(x) =>
        assert IsStored(layout, m, b);
        SlotCovered(n, info, layout, coefs, m, b);
        var c := Comp(info, layout, b);
        assert KnownBlock(scans, i, c, coefs[c][x], image[c][x]);
        BlockPrior(n, scans, i, scan, c, coefs[c][x], image[c][x]);
    }
  }

  /** An interleaved scan starts with the DC coefficient, and refines nothing else. */
  lemma {:induction false} PaddingKnown(n: nat, scans: seq<ScanInfo>, i: nat, scan: Scan, contents: Block)
    requires WellFormed(scans) && scans != [] && i < |scans| && ScansOk(n, scans, i + 1) && scans[i].compsInScan > 1
    requires scan.ss == scans[i].ss && scan.se == scans[i].se && scan.ah == scans[i].ah && scan.ah <= MAX_AH_AL
    ensures PriorKnown(scan, contents, PaddingPrior(contents, scan.ah))
  {
    hide LastBit, Approx;
    assert ScanOk(n, scans, i);
  }

  lemma {:induction false} BandNotEmpty(n: nat, scans: seq<ScanInfo>, i: nat)
    requires WellFormed(scans) && scans != [] && i < |scans| && ScansOk(n, scans, i + 1)
    ensures scans[i].ss <= scans[i].se
  {
    assert ScanOk(n, scans, i);
  }

  lemma {:induction false} ImageAfter(n: nat, scans: seq<ScanInfo>, i: nat, layout: Layout, coefs: Coefs, image: Coefs, decoded: seq<Mcu>, after: Coefs)
    requires WellFormed(scans) && scans != [] && i < |scans| && ScansOk(n, scans, i + 1)
    requires ValidLayout(scans[i], layout, coefs) && ValidLayout(scans[i], layout, image) && KnownImage(scans, i, coefs, image)
    requires scans[i].ss >= 0 && scans[i].se >= 0 && 0 <= scans[i].ah <= MAX_AH_AL && scans[i].al >= 0
    requires Fill(layout, decoded) && StoredTo(scans[i], layout, image, decoded, after, |decoded|, 0)
    requires ScanUpdated(ScanOf(Progressive(scans), scans[i], layout), Gather(scans[i], layout, coefs), GatherPrior(scans[i], layout, image), decoded)
    ensures KnownImage(scans, i + 1, coefs, after)
  {
    hide LastBit, KnownBlock, Updated, Covers, ScansOk;
    var info := scans[i];
    var scan := ScanOf(Progressive(scans), info, layout);
    var mcus, prior := Gather(info, layout, coefs), GatherPrior(info, layout, image);
    forall c, x | 0 <= c < |coefs| && 0 <= x < |coefs[c]|
      ensures KnownBlock(scans, i + 1, c, coefs[c][x], after[c][x])
    {
      BandNotEmpty(n, scans, i);
      assert KnownBlock(scans, i, c, coefs[c][x], image[c][x]);
      if Covers(info, c, info.ss) {
        assert Visited(info, layout, image, c, x);
        var m, b :| Holds(info, layout, image, m, b, c, x);
        assert Earlier(m, b, |decoded|, 0);
        assert McuUpdated(scan, mcus[m], prior[m], decoded[m]);
        BlockAfter(scans, i, scan, c, coefs[c][x], image[c][x], after[c][x]);
      } else {
        forall m, b | Holds(info, layout, image, m, b, c, x)
          ensures false
        {
          SlotCovered(n, info, layout, coefs, m, b);
        }
        BlockUntouched(scans, i, c, coefs[c][x], image[c][x]);
      }
    }
  }

  /** No DC difference of scan `i` overflows the magnitude categories. */
  ghost predicate SmoothAt(n: nat, scans: seq<ScanInfo>, layouts: seq<Layout>, coefs: Coefs, i: nat)
    requires WellFormed(scans) && scans != [] && |layouts| == |scans| && i < |scans| && ScansOk(n, scans, i + 1)
    requires ValidLayout(scans[i], layouts[i], coefs)
  {
    AcceptedScanIsValid(n, scans, i, layouts[i], coefs);
    ScanSmooth(ScanOf(Progressive(scans), scans[i], layouts[i]), Gather(scans[i], layouts[i], coefs))
  }

  /** An image through all scans of an accepted script. It fails exactly when some DC
      difference is too large; otherwise each coefficient is known to the precision of
      the last scan that codes it, and all of them exactly if that is bit 0 everywhere. */
  method TranscodeImage(n: nat, scans: seq<ScanInfo>, layouts: seq<Layout>, coefs: Coefs) returns (ok: bool, image: Coefs)
    requires WellFormed(scans) && ValidScript(n, scans) && |coefs| == n && |layouts| == |scans|
    requires forall i :: 0 <= i < |scans| ==> ValidLayout(scans[i], layouts[i], coefs)
    ensures ok <==> forall i :: 0 <= i < |scans| ==> SmoothAt(n, scans, layouts, coefs, i)
    ensures ok ==> KnownImage(scans, |scans|, coefs, image)
    ensures ok && (forall c, k :: 0 <= c < n && 0 <= k < 64 ==> LastBit(scans, |scans|, c, k) == 0) ==> image == coefs
  {
    hide LastBit, ValidLayout, ScanOk, KnownImage, ScanSmooth, ScanUpdated, PriorScanKnown, StoredTo, ValidScan;
    image := Zeros(coefs);
    NothingKnown(scans, coefs);
    for i := 0 to |scans|
      invariant forall j :: 0 <= j < i ==> SmoothAt(n, scans, layouts, coefs, j)
      invariant SameShape(coefs, image) && KnownImage(scans, i, coefs, image)
    {
      var info, layout := scans[i], layouts[i];
      AcceptedScanIsValid(n, scans, i, layout, coefs);
      LayoutOfShape(info, layout, coefs, image);
      ImagePrior(n, scans, i, layout, coefs, image);
      var scan := ScanOf(scans[0].ss != 0 || scans[0].se != 63, info, layout);
      UsableLayout(info, layout, coefs);
      UsableLayout(info, layout, image);
      var decoded;
      ok, decoded := TranscodeScan(scan, Gather(info, layout, coefs), GatherPrior(info, layout, image), layout.end);
      if !ok {
        assert !SmoothAt(n, scans, layouts, coefs, i);
        return;
      }
      UpdatedFills(scan, layout, Gather(info, layout, coefs), GatherPrior(info, layout, image), decoded);
      var after := Store(info, layout, image, decoded);
      ImageAfter(n, scans, i, layout, coefs, image, decoded, after);
      KnownShape(scans, i + 1, coefs, after);
      image := after;
    }
    ok := true;
    if forall c, k :: 0 <= c < n && 0 <= k < 64 ==> LastBit(scans, |scans|, c, k) == 0 {
      KnownExactly(scans, coefs, image);
    }
  }

  /** Bit 0 is needed: at any other precision some coefficient is lost. */
  lemma {:induction false} ExactOnlyAtBitZero(k: nat, last: int)
    ensures (forall x: Coef :: Known(x, k, last) == x) <==> last == 0
  {
    if last == 0 {
      forall x: Coef
        ensures Known(x, k, last) == x
      {
        ApproxExact(x, k);
      }
    } else if last > 0 {
      Pow2Strict(0, last);
      assert Pow2(0) == 1;
      hide Pow2;
      QuotientIs(1, Pow2(last), 0);
      assert Known(1, k, last) == 0;
    } else {
      assert Known(1, k, last) == 0;
    }
  }

  function Zeros(coefs: Coefs): (image: Coefs)
    ensures SameShape(coefs, image)
  {
    seq(|coefs|, c requires 0 <= c < |coefs| => seq(|coefs[c]|, x => seq(64, k => 0)))
  }

  lemma {:induction false} NothingKnown(scans: seq<ScanInfo>, coefs: Coefs)
    ensures KnownImage(scans, 0, coefs, Zeros(coefs))
  {
  }

  lemma {:induction false} UsableLayout(info: ScanInfo, layout: Layout, coefs: Coefs)
    requires ValidLayout(info, layout, coefs)
    ensures SlotsFit(info, layout, coefs) && VisitsOnce(info, layout, coefs) && 0 < layout.end.marker < 255
  {
  }

  lemma {:induction false} UpdatedFills(scan: Scan, layout: Layout, mcus: seq<Mcu>, prior: seq<Mcu>, decoded: seq<Mcu>)
    requires Fill(layout, mcus) && ScanUpdated(scan, mcus, prior, decoded)
    ensures Fill(layout, decoded)
  {
    forall m | 0 <= m < |decoded|
      ensures |decoded[m]| == |layout.membership|
    {
      assert McuUpdated(scan, mcus[m], prior[m], decoded[m]);
    }
  }

  lemma {:induction false} KnownShape(scans: seq<ScanInfo>, i: nat, coefs: Coefs, image: Coefs)
    requires i <= |scans| && KnownImage(scans, i, coefs, image)
    ensures SameShape(coefs, image)
  {
  }

  lemma {:induction false} KnownExactly(scans: seq<ScanInfo>, coefs: Coefs, image: Coefs)
    requires KnownImage(scans, |scans|, coefs, image)
    requires forall c, k :: 0 <= c < |coefs| && 0 <= k < 64 ==> LastBit(scans, |scans|, c, k) == 0
    ensures image == coefs
  {
    hide LastBit, Approx;
    forall c | 0 <= c < |coefs|
      ensures image[c] == coefs[c]
    {
      forall x | 0 <= x < |coefs[c]|
        ensures image[c][x] == coefs[c][x]
      {
        assert KnownBlock(scans, |scans|, c, coefs[c][x], image[c][x]);
        forall k | 0 <= k < 64
          ensures image[c][x][k] == coefs[c][x][k]
        {
          ApproxExact(coefs[c][x][k], k);
        }
      }
    }
  }

  // ----- images that cannot fail

  const DC_LIMIT := 16384

  /** DC coefficients that no difference of two can overflow; eight-bit samples give
      at most 1024 in absolute value. */
  predicate SmallDc(block: Block) {
    -DC_LIMIT <= block[0] <= DC_LIMIT
  }

  ghost predicate SmallPadding(layout: Layout) {
    forall m, b :: IsSlot(layout, m, b) && b < |layout.order[m]| && layout.order[m][b].Padding? ==>
      SmallDc(layout.order[m][b].contents)
  }

  predicate SmallMcu(mcu: Mcu) {
    forall b :: 0 <= b < |mcu| ==> SmallDc(mcu[b])
  }

  predicate SmallState(st: DcState) {
    forall c :: 0 <= c < |st.last| ==> -DC_LIMIT <= st.last[c] <= DC_LIMIT
  }

  lemma {:induction false} PointDcSmall(x: Coef, al: nat)
    requires -DC_LIMIT <= x <= DC_LIMIT
    ensures -DC_LIMIT <= PointDc(x, al) <= DC_LIMIT
  {
    hide Pow2;
    var p := Pow2(al);
    var q := x / p;
    assert x == q * p + x % p;
    MulMonotone(q + 1, -DC_LIMIT, p);
    MulMonotone(DC_LIMIT + 1, q, p);
    MulMonotone(1, p, DC_LIMIT);
  }

  lemma {:induction false} SmallMcuSmooth(scan: Scan, st: DcState, mcu: Mcu, b: nat)
    requires ValidScan(scan) && ValidState(scan, st) && ValidMcu(scan, mcu) && b <= |mcu|
    requires SmallMcu(mcu) && SmallState(st)
    ensures McuSmooth(scan, st, mcu, b) && SmallState(McuState(scan, st, mcu, b))
    decreases |mcu| - b
  {
    if b < |mcu| {
      PointDcSmall(mcu[b][0], scan.al);
      hide PointDc, DcContext;
      SmallMcuSmooth(scan, NextState(scan, st, scan.membership[b], mcu[b]), mcu, b + 1);
    }
  }

  lemma {:induction false} SmallIntervalSmooth(scan: Scan, st: DcState, mcus: seq<Mcu>)
    requires ValidScan(scan) && ValidState(scan, st) && ValidMcus(scan, mcus)
    requires (forall m :: 0 <= m < |mcus| ==> SmallMcu(mcus[m])) && SmallState(st)
    ensures IntervalSmooth(scan, st, mcus)
    decreases |mcus|
  {
    if mcus != [] {
      SmallMcuSmooth(scan, st, mcus[0], 0);
      hide McuSmooth, McuState;
      SmallIntervalSmooth(scan, McuState(scan, st, mcus[0], 0), mcus[1..]);
    }
  }

  /** With small DC coefficients no scan of an accepted script fails, so the image is
      always decoded. */
  lemma {:induction false} SmallImageIsSmooth(n: nat, scans: seq<ScanInfo>, layouts: seq<Layout>, coefs: Coefs, i: nat)
    requires WellFormed(scans) && scans != [] && |layouts| == |scans| && i < |scans| && ScansOk(n, scans, i + 1)
    requires ValidLayout(scans[i], layouts[i], coefs)
    requires forall c, x :: 0 <= c < |coefs| && 0 <= x < |coefs[c]| ==> SmallDc(coefs[c][x])
    requires SmallPadding(layouts[i])
    ensures SmoothAt(n, scans, layouts, coefs, i)
  {
    hide ScanOk, VisitsOnce, Covers, IntervalSmooth;
    AcceptedScanIsValid(n, scans, i, layouts[i], coefs);
    var scan := ScanOf(Progressive(scans), scans[i], layouts[i]);
    var mcus := Gather(scans[i], layouts[i], coefs);
    forall m | 0 <= m < |mcus|
      ensures SmallMcu(mcus[m])
    {
      forall b | 0 <= b < |mcus[m]|
        ensures SmallDc(mcus[m][b])
      {
        assert IsSlot(layouts[i], m, b);
        assert IsStored(layouts[i], m, b) || layouts[i].order[m][b].Padding?;
      }
    }
    ValidInitialState(scan);
    forall j | 0 <= j < Intervals(scan, |mcus|)
      ensures ChunkSmooth(scan, mcus, j)
    {
      SmallIntervalSmooth(scan, InitialState(scan), Chunk(scan, mcus, |mcus|, j));
    }
  }
}
