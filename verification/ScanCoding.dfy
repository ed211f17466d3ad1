/** What a scan codes: the decisions of every block, MCU and restart interval, and
    what a decoder knows about a block after the scan. */
module ScanCoding {
  import opened Shifts
  import opened ProbabilityTable
  import opened IntervalCoder
  import opened Binarisation

  /** Scan parameters: the components, which component each block of an MCU belongs
      to, the band ss..se and the successive approximation positions ah and al. */
  datatype Scan = Scan(comps: seq<Component>, membership: seq<nat>, progressive: bool,
                       ss: nat, se: nat, ah: nat, al: nat, restartInterval: nat)

  predicate ValidScan(scan: Scan) {
    && |scan.comps| >= 1
    && (forall b :: 0 <= b < |scan.membership| ==> scan.membership[b] < |scan.comps|)
    && (scan.ah != 0 ==> scan.al == scan.ah - 1) && scan.al <= 13
    && if !scan.progressive then scan.ss == 0 && scan.se == 63 && scan.ah == 0 && scan.al == 0
       else if scan.ss == 0 then scan.se == 0
       else scan.ss <= scan.se < 64 && scan.membership == [0]
  }

  /** The prediction and the conditioning category of every component. */
  datatype DcState = DcState(last: seq<int>, context: seq<nat>)

  predicate ValidState(scan: Scan, st: DcState) {
    && |st.last| == |st.context| == |scan.comps|
    && forall c :: 0 <= c < |st.last| ==> -32768 <= st.last[c] < 32768 && st.context[c] <= 16
  }

  function InitialState(scan: Scan): (st: DcState) {
    DcState(seq(|scan.comps|, _ => 0), seq(|scan.comps|, _ => 0))
  }

  /** Scans that predict the DC coefficient. */
  predicate PredictsDc(scan: Scan) {
    scan.ss == 0 && scan.ah == 0
  }

  function DcDiff(scan: Scan, st: DcState, c: nat, block: Block): int
    requires ValidState(scan, st) && c < |scan.comps|
  {
    PointDc(block[0], scan.al) - st.last[c]
  }

  function DcPart(scan: Scan, st: DcState, c: nat, block: Block): seq<Decision>
    requires ValidScan(scan) && ValidState(scan, st) && c < |scan.comps|
  {
    if PredictsDc(scan) then DcDecisions(scan.comps[c], st.context[c], DcDiff(scan, st, c, block))
    else if scan.ss == 0 then [Decision(Fixed, PointDc(block[0], scan.al) % 2)]
    else []
  }

  function AcPart(scan: Scan, c: nat, block: Block): seq<Decision>
    requires ValidScan(scan) && c < |scan.comps|
  {
    var first := if scan.ss == 0 then 1 else scan.ss;
    var ke := LastNonzero(block, scan.al, scan.se);
    if scan.se == 0 then []
    else if scan.ah == 0 then AcFrom(scan.comps[c], block, scan.al, scan.se, ke, first)
    else RefineFrom(scan.comps[c], block, scan.al, scan.se, ke, LastNonzero(block, scan.ah, ke), first)
  }

  function BlockDecisions(scan: Scan, st: DcState, c: nat, block: Block): seq<Decision>
    requires ValidScan(scan) && ValidState(scan, st) && c < |scan.comps|
  {
    DcPart(scan, st, c, block) + AcPart(scan, c, block)
  }

  function NextState(scan: Scan, st: DcState, c: nat, block: Block): (r: DcState)
    requires ValidScan(scan) && ValidState(scan, st) && c < |scan.comps|
    ensures ValidState(scan, r)
  {
    PointDcInRange(block[0], scan.al);
    if !PredictsDc(scan) then st
    else DcState(st.last[c := PointDc(block[0], scan.al)],
                 st.context[c := DcContext(scan.comps[c], DcDiff(scan, st, c, block))])
  }

  lemma {:induction false} PointDcInRange(x: Coef, al: nat)
    ensures -32768 <= PointDc(x, al) < 32768
    ensures x >= 0 ==> PointDc(x, al) >= 0
  {
    var p := Pow2(al);
    var q := x / p;
    assert x == q * p + x % p;
    MulMonotone(q, -32769, p);
    MulMonotone(32768, q, p);
    MulMonotone(q, -1, p);
    MulMonotone(1, p, 32768);
  }

  /** The prediction difference fits the magnitude categories. */
  predicate Smooth(scan: Scan, st: DcState, c: nat, block: Block)
    requires ValidState(scan, st) && c < |scan.comps|
  {
    PredictsDc(scan) ==> Abs(DcDiff(scan, st, c, block)) <= 32768
  }

  // ----- MCUs

  type Mcu = seq<Block>

  predicate ValidMcu(scan: Scan, mcu: Mcu) {
    |mcu| == |scan.membership|
  }

  function McuFrom(scan: Scan, st: DcState, mcu: Mcu, b: nat): seq<Decision>
    requires ValidScan(scan) && ValidState(scan, st) && ValidMcu(scan, mcu) && b <= |mcu|
    decreases |mcu| - b
  {
    if b == |mcu| then []
    else BlockDecisions(scan, st, scan.membership[b], mcu[b])
         + McuFrom(scan, NextState(scan, st, scan.membership[b], mcu[b]), mcu, b + 1)
  }

  function McuState(scan: Scan, st: DcState, mcu: Mcu, b: nat): (r: DcState)
    requires ValidScan(scan) && ValidState(scan, st) && ValidMcu(scan, mcu) && b <= |mcu|
    ensures ValidState(scan, r)
    decreases |mcu| - b
  {
    if b == |mcu| then st
    else McuState(scan, NextState(scan, st, scan.membership[b], mcu[b]), mcu, b + 1)
  }

  predicate McuSmooth(scan: Scan, st: DcState, mcu: Mcu, b: nat)
    requires ValidScan(scan) && ValidState(scan, st) && ValidMcu(scan, mcu) && b <= |mcu|
    decreases |mcu| - b
  {
    b < |mcu| ==>
      && Smooth(scan, st, scan.membership[b], mcu[b])
      && McuSmooth(scan, NextState(scan, st, scan.membership[b], mcu[b]), mcu, b + 1)
  }

  // ----- restart intervals

  predicate ValidMcus(scan: Scan, mcus: seq<Mcu>) {
    forall m :: 0 <= m < |mcus| ==> ValidMcu(scan, mcus[m])
  }

  function IntervalFrom(scan: Scan, st: DcState, mcus: seq<Mcu>): seq<Decision>
    requires ValidScan(scan) && ValidState(scan, st) && ValidMcus(scan, mcus)
    decreases |mcus|
  {
    if mcus == [] then []
    else McuFrom(scan, st, mcus[0], 0) + IntervalFrom(scan, McuState(scan, st, mcus[0], 0), mcus[1..])
  }

  function IntervalState(scan: Scan, st: DcState, mcus: seq<Mcu>): (r: DcState)
    requires ValidScan(scan) && ValidState(scan, st) && ValidMcus(scan, mcus)
    ensures ValidState(scan, r)
    decreases |mcus|
  {
    if mcus == [] then st else IntervalState(scan, McuState(scan, st, mcus[0], 0), mcus[1..])
  }

  predicate IntervalSmooth(scan: Scan, st: DcState, mcus: seq<Mcu>)
    requires ValidScan(scan) && ValidState(scan, st) && ValidMcus(scan, mcus)
    decreases |mcus|
  {
    mcus != [] ==>
      McuSmooth(scan, st, mcus[0], 0) && IntervalSmooth(scan, McuState(scan, st, mcus[0], 0), mcus[1..])
  }

  lemma {:induction false} IntervalAppend(scan: Scan, st: DcState, mcus: seq<Mcu>, mcu: Mcu)
    requires ValidScan(scan) && ValidState(scan, st) && ValidMcus(scan, mcus) && ValidMcu(scan, mcu)
    ensures IntervalFrom(scan, st, mcus + [mcu])
         == IntervalFrom(scan, st, mcus) + McuFrom(scan, IntervalState(scan, st, mcus), mcu, 0)
    ensures IntervalState(scan, st, mcus + [mcu]) == McuState(scan, IntervalState(scan, st, mcus), mcu, 0)
    decreases |mcus|
  {
    hide McuFrom, McuState;
    if mcus == [] {
      assert (mcus + [mcu])[1..] == [];
    } else {
      assert (mcus + [mcu])[1..] == mcus[1..] + [mcu];
      IntervalAppend(scan, McuState(scan, st, mcus[0], 0), mcus[1..], mcu);
    }
  }

  /** Number of restart intervals, at least one. */
  function Intervals(scan: Scan, n: nat): (k: nat)
    ensures k >= 1
  {
    if scan.restartInterval == 0 || n == 0 then 1
    else QuotientBounds(n - 1, scan.restartInterval); (n - 1) / scan.restartInterval + 1
  }

  /** The MCUs of restart interval `i`, out of the first `n`. */
  function Chunk(scan: Scan, mcus: seq<Mcu>, n: nat, i: nat): (chunk: seq<Mcu>)
    requires n <= |mcus|
  {
    var r := scan.restartInterval;
    if r == 0 then mcus[..n]
    else if i * r >= n then []
    else if i * r + r <= n then mcus[i * r..i * r + r]
    else mcus[i * r..n]
  }

  // ----- what a decoder knows

  /** The value known for coefficient `j` of a block after its scan at precision `al`. */
  function Approx(x: Coef, j: nat, al: nat): int {
    if j == 0 then ApproxDc(x, al) else ApproxAc(x, al)
  }

  lemma {:induction false} FloorMultiple(x: int, p: nat, m: nat)
    requires p > 0 && m * p == 32768 && -32768 <= x < 32768
    ensures -32768 <= x / p * p < 32768
  {
    var q: int := x / p;
    assert x == q * p + x % p;
    assert (-(m as int)) * p == -32768;
    MulMonotone(q + 1, -(m as int), p);
    assert (q + 1) * p == q * p + p;
  }

  lemma {:induction false} ApproxInRange(x: Coef, j: nat, al: nat)
    requires al <= 15
    ensures -32768 <= Approx(x, j, al) < 32768
  {
    if j == 0 {
      ShlIsProduct(Pow2(15 - al), al);
      ShlShl(1, 15 - al, al);
      ShlConstants(1);
      hide Pow2, Shl;
      FloorMultiple(x, Pow2(al), Pow2(15 - al));
    } else {
      ApproxAcInRange(x, al);
    }
  }

  lemma {:induction false} ApproxExact(x: Coef, j: nat)
    ensures Approx(x, j, 0) == x
  {
    assert Pow2(0) == 1;
  }

  /** Reading the next bit of a DC coefficient moves it to the next precision. */
  lemma {:induction false} ApproxDcRefines(x: Coef, al: nat)
    ensures ApproxDc(x, al) == ApproxDc(x, al + 1) + PointDc(x, al) % 2 * Pow2(al)
    ensures ApproxDc(x, al + 1) / Pow2(al) % 2 == 0
  {
    Pow2Double(al);
    DivDiv(x, Pow2(al), 2);
    hide Pow2;
    SplitLowBit(x / Pow2(al), Pow2(al));
  }

  lemma {:induction false} SplitLowBit(q: int, p: nat)
    requires p > 0
    ensures q * p == q / 2 * (2 * p) + q % 2 * p
    ensures q / 2 * (2 * p) / p % 2 == 0
  {
    var h: int := q / 2 * 2;
    assert q * p == h * p + q % 2 * p;
    assert q / 2 * (2 * p) == h * p && (h + 1) * p == h * p + p;
    QuotientIs(h * p, p, h);
  }

  /** What the decoder must already hold of a block's coefficients in the band. */
  predicate PriorKnown(scan: Scan, target: Block, prior: Block) {
    forall j :: scan.ss <= j <= scan.se && j < 64 && (j > 0 || scan.ah > 0) ==>
      prior[j] == if scan.ah == 0 then 0 else Approx(target[j], j, scan.ah)
  }

  /** What it holds afterwards; nothing outside the band changes. */
  predicate Updated(scan: Scan, target: Block, prior: Block, block: Block) {
    forall j :: 0 <= j < 64 ==>
      block[j] == if scan.ss <= j <= scan.se then Approx(target[j], j, scan.al) else prior[j]
  }
}
