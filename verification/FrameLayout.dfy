/** Which block goes where in a scan, from the size of the image and the sampling factors
    (initial_setup and per_scan_setup of jcmaster.c, compress_output of jccoefct.c), and the
    progressive theorem for images of every size. */
module FrameLayout {
  import opened Shifts
  import opened Binarisation
  import opened ScanCoding
  import opened EntropyDecoding
  import opened ScanScript
  import opened ImageTranscoding

  const DCT_SIZE := 8
  const MAX_SAMP_FACTOR := 4
  const MAX_BLOCKS_IN_MCU := 10

  datatype Sampling = Sampling(h: nat, v: nat)

  /** An image and the sampling factors of its components, with their maxima. */
  datatype Frame = Frame(width: nat, height: nat, sampling: seq<Sampling>, maxH: nat, maxV: nat)

  predicate ValidFrame(f: Frame) {
    && f.width > 0 && f.height > 0
    && forall c :: 0 <= c < |f.sampling| ==> 1 <= f.sampling[c].h <= f.maxH && 1 <= f.sampling[c].v <= f.maxV
  }

  /** The maxima of the sampling factors; fails if one is out of range. */
  method MaxSampling(sampling: seq<Sampling>) returns (ok: bool, maxH: nat, maxV: nat)
    ensures ok <==> forall c :: 0 <= c < |sampling| ==> 1 <= sampling[c].h <= MAX_SAMP_FACTOR && 1 <= sampling[c].v <= MAX_SAMP_FACTOR
    ensures ok ==> 1 <= maxH && 1 <= maxV && forall c :: 0 <= c < |sampling| ==> sampling[c].h <= maxH && sampling[c].v <= maxV
    ensures ok && sampling != [] ==>
              (exists c :: 0 <= c < |sampling| && sampling[c].h == maxH) && (exists c :: 0 <= c < |sampling| && sampling[c].v == maxV)
  {
    ok, maxH, maxV := true, 1, 1;
    ghost var widest, tallest := 0, 0;
    for c := 0 to |sampling|
      invariant forall i :: 0 <= i < c ==> 1 <= sampling[i].h <= MAX_SAMP_FACTOR && 1 <= sampling[i].v <= MAX_SAMP_FACTOR
      invariant 1 <= maxH && 1 <= maxV && forall i :: 0 <= i < c ==> sampling[i].h <= maxH && sampling[i].v <= maxV
      invariant c == 0 ==> maxH == maxV == 1
      invariant c > 0 ==> 0 <= widest < c && sampling[widest].h == maxH && 0 <= tallest < c && sampling[tallest].v == maxV
    {
      var s := sampling[c];
      if s.h <= 0 || s.h > MAX_SAMP_FACTOR || s.v <= 0 || s.v > MAX_SAMP_FACTOR {
        return false, 1, 1;
      }
      if s.h >= maxH {
        maxH, widest := s.h, c;
      }
      if s.v >= maxV {
        maxV, tallest := s.v, c;
      }
    }
  }

  // ----- sizes in blocks and MCUs

  function RoundUp(a: nat, b: nat): nat
    requires b > 0
  {
    (a + b - 1) / b
  }

  lemma {:induction false} BelowRoundUp(a: nat, b: nat, x: nat)
    requires b > 0
    ensures x < RoundUp(a, b) <==> x * b < a
  {
    var q := RoundUp(a, b);
    QuotientBounds(a + b - 1, b);
    MulMonotone(x + 1, q, b);
    MulMonotone(q, x, b);
    assert (x + 1) * b == x * b + b;
  }

  function Across(f: Frame, c: nat): nat
    requires ValidFrame(f) && c < |f.sampling|
  {
    RoundUp(f.width * f.sampling[c].h, f.maxH * DCT_SIZE)
  }

  function Down(f: Frame, c: nat): nat
    requires ValidFrame(f) && c < |f.sampling|
  {
    RoundUp(f.height * f.sampling[c].v, f.maxV * DCT_SIZE)
  }

  /** A component has a block exactly where it has samples: of every `maxH` columns of the
      image it has `h`, of every `maxV` rows `v`, and a block has eight of each. */
  lemma {:induction false} BlockHoldsSamples(f: Frame, c: nat, x: nat, y: nat)
    requires ValidFrame(f) && c < |f.sampling|
    ensures x < Across(f, c) <==> 8 * x * f.maxH < f.width * f.sampling[c].h
    ensures y < Down(f, c) <==> 8 * y * f.maxV < f.height * f.sampling[c].v
  {
    BelowRoundUp(f.width * f.sampling[c].h, f.maxH * DCT_SIZE, x);
    BelowRoundUp(f.height * f.sampling[c].v, f.maxV * DCT_SIZE, y);
    assert x * (f.maxH * DCT_SIZE) == 8 * x * f.maxH && y * (f.maxV * DCT_SIZE) == 8 * y * f.maxV;
    hide RoundUp;
  }

  /** The arrays of an image of this size. */
  predicate Fits(f: Frame, coefs: Coefs) {
    && ValidFrame(f) && |coefs| == |f.sampling|
    && forall c :: 0 <= c < |coefs| ==> |coefs[c]| == Down(f, c) * Across(f, c)
  }

  predicate ScanFits(f: Frame, info: ScanInfo) {
    && ValidFrame(f) && 0 < info.compsInScan <= |info.componentIndex|
    && forall i :: 0 <= i < info.compsInScan ==> 0 <= info.componentIndex[i] < |f.sampling|
  }

  function SamplingOf(f: Frame, info: ScanInfo, i: nat): Sampling
    requires ScanFits(f, info) && i < info.compsInScan
  {
    f.sampling[info.componentIndex[i]]
  }

  function McusPerRow(f: Frame, info: ScanInfo): nat
    requires ScanFits(f, info)
  {
    if info.compsInScan == 1 then Across(f, info.componentIndex[0])
    else
      assert |f.sampling| > 0 && f.sampling[info.componentIndex[0]].h <= f.maxH;
      RoundUp(f.width, f.maxH * DCT_SIZE)
  }

  function McuRows(f: Frame, info: ScanInfo): nat
    requires ScanFits(f, info)
  {
    if info.compsInScan == 1 then Down(f, info.componentIndex[0])
    else
      assert |f.sampling| > 0 && f.sampling[info.componentIndex[0]].v <= f.maxV;
      RoundUp(f.height, f.maxV * DCT_SIZE)
  }

  /** How many rows and columns of a component an MCU spans. */
  function Span(f: Frame, info: ScanInfo, i: nat): Sampling
    requires ScanFits(f, info) && i < info.compsInScan
  {
    if info.compsInScan == 1 then Sampling(1, 1) else SamplingOf(f, info, i)
  }

  /** Blocks of the first `i` components in an MCU. */
  function BlocksBefore(f: Frame, info: ScanInfo, i: nat): nat
    requires ScanFits(f, info) && i <= info.compsInScan
  {
    if i == 0 then 0 else BlocksBefore(f, info, i - 1) + Span(f, info, i - 1).v * Span(f, info, i - 1).h
  }

  // ----- membership

  predicate IsMembership(f: Frame, info: ScanInfo, membership: seq<nat>)
    requires ScanFits(f, info)
  {
    && |membership| == BlocksBefore(f, info, info.compsInScan)
    && forall i, o :: 0 <= i < info.compsInScan && 0 <= o < Span(f, info, i).v * Span(f, info, i).h ==>
         MemberAt(f, info, membership, i, o)
  }

  predicate MemberAt(f: Frame, info: ScanInfo, membership: seq<nat>, i: nat, o: nat)
    requires ScanFits(f, info) && i < info.compsInScan
  {
    var b := BlocksBefore(f, info, i) + o;
    b < |membership| && membership[b] == i
  }

  /** The composition of the scan's MCUs; fails if they have too many blocks. */
  method PerScanSetup(f: Frame, info: ScanInfo) returns (ok: bool, membership: seq<nat>)
    requires ScanFits(f, info)
    ensures ok <==> info.compsInScan == 1 || BlocksBefore(f, info, info.compsInScan) <= MAX_BLOCKS_IN_MCU
    ensures ok ==> IsMembership(f, info, membership)
  {
    assert info.compsInScan >= 0;
    hide ScanFits;
    if info.compsInScan == 1 {
      OneBlock(f, info);
      return true, [0];
    }
    membership := [];
    for i := 0 to info.compsInScan
      invariant |membership| == BlocksBefore(f, info, i) <= MAX_BLOCKS_IN_MCU
      invariant forall j, o :: 0 <= j < i && 0 <= o < Span(f, info, j).v * Span(f, info, j).h ==>
                  MemberAt(f, info, membership, j, o)
    {
      var blocks := SamplingOf(f, info, i).v * SamplingOf(f, info, i).h;
      if |membership| + blocks > MAX_BLOCKS_IN_MCU {
        MoreBlocks(f, info, i + 1, info.compsInScan);
        return false, [];
      }
      ghost var before := membership;
      var left := blocks;
      while left > 0
        invariant 0 <= left <= blocks && |membership| == |before| + (blocks - left) && before <= membership
        invariant forall k :: |before| <= k < |membership| ==> membership[k] == i
      {
        membership := membership + [i];
        left := left - 1;
      }
      assert forall j, o :: 0 <= j < i && 0 <= o < Span(f, info, j).v * Span(f, info, j).h ==>
          MemberAt(f, info, before, j, o) ==> MemberAt(f, info, membership, j, o);
    }
    ok := true;
  }

  lemma {:induction false} OneBlock(f: Frame, info: ScanInfo)
    requires ScanFits(f, info) && info.compsInScan == 1
    ensures IsMembership(f, info, [0])
  {
    assert BlocksBefore(f, info, 0) == 0 && BlocksBefore(f, info, 1) == 1;
  }

  lemma {:induction false} MoreBlocks(f: Frame, info: ScanInfo, i: nat, n: nat)
    requires ScanFits(f, info) && i <= n <= info.compsInScan
    ensures BlocksBefore(f, info, i) <= BlocksBefore(f, info, n)
    decreases n
  {
    if i < n {
      MoreBlocks(f, info, i, n - 1);
    }
  }

  /** Every block of an MCU belongs to some component. */
  lemma {:induction false} ComponentOf(f: Frame, info: ScanInfo, b: nat, n: nat) returns (i: nat)
    requires ScanFits(f, info) && n <= info.compsInScan && b < BlocksBefore(f, info, n)
    ensures i < n && BlocksBefore(f, info, i) <= b < BlocksBefore(f, info, i) + Span(f, info, i).v * Span(f, info, i).h
    decreases n
  {
    if b < BlocksBefore(f, info, n - 1) {
      i := ComponentOf(f, info, b, n - 1);
    } else {
      i := n - 1;
    }
  }

  /** Where in an MCU a block is: its component, and its row and column there. */
  predicate InMcu(f: Frame, info: ScanInfo, membership: seq<nat>, b: int, i: nat, y: nat, x: nat)
    requires ScanFits(f, info)
  {
    && 0 <= b < |membership| && i < info.compsInScan && membership[b] == i
    && y < Span(f, info, i).v && x < Span(f, info, i).h
    && b == BlocksBefore(f, info, i) + (y * Span(f, info, i).h + x)
  }

  lemma {:induction false} PlaceOf(f: Frame, info: ScanInfo, membership: seq<nat>, b: nat) returns (i: nat, y: nat, x: nat)
    requires ScanFits(f, info) && IsMembership(f, info, membership) && b < |membership|
    ensures InMcu(f, info, membership, b, i, y, x)
  {
    hide Span;
    i := ComponentOf(f, info, b, info.compsInScan);
    SpanPositive(f, info, i);
    var o: nat, v: int, h: int := b - BlocksBefore(f, info, i), Span(f, info, i).v, Span(f, info, i).h;
    hide BlocksBefore;
    assert 0 <= o < v * h && MemberAt(f, info, membership, i, o);
    y, x := o / h, o % h;
    QuotientBounds(o, h);
    MulMonotone(v, y, h);
  }

  lemma {:induction false} PlaceIn(f: Frame, info: ScanInfo, membership: seq<nat>, i: nat, y: nat, x: nat) returns (b: nat)
    requires ScanFits(f, info) && IsMembership(f, info, membership) && i < info.compsInScan
    requires y < Span(f, info, i).v && x < Span(f, info, i).h
    ensures InMcu(f, info, membership, b, i, y, x)
  {
    hide Span, BlocksBefore;
    var v: int, h: int := Span(f, info, i).v, Span(f, info, i).h;
    var o: int := y * h + x;
    MulMonotone(y + 1, v, h);
    assert (y + 1) * h == y * h + h;
    assert MemberAt(f, info, membership, i, o);
    b := BlocksBefore(f, info, i) + o;
  }

  /** A block is in one place. */
  lemma {:induction false} OnePlaceInMcu(f: Frame, info: ScanInfo, membership: seq<nat>, b: nat, i: nat, y: nat, x: nat, i2: nat, y2: nat, x2: nat)
    requires ScanFits(f, info) && InMcu(f, info, membership, b, i, y, x) && InMcu(f, info, membership, b, i2, y2, x2)
    ensures i == i2 && y == y2 && x == x2
  {
    hide Span, BlocksBefore;
    SameParts(y, x, y2, x2, Span(f, info, i).h);
  }

  // ----- places in the image

  lemma {:induction false} SpanPositive(f: Frame, info: ScanInfo, i: nat)
    requires ScanFits(f, info) && i < info.compsInScan
    ensures Span(f, info, i).h >= 1 && Span(f, info, i).v >= 1
  {
    assert 0 <= info.componentIndex[i] < |f.sampling|;
  }

  /** Slot `b` of MCU `m` is for row `r` and column `q` of component `c`, or padding behind
      the component's edge. */
  predicate SlotFor(f: Frame, layout: Layout, m: int, b: int, c: int, r: int, q: int)
    requires ValidFrame(f) && 0 <= c < |f.sampling|
  {
    && 0 <= m < |layout.order| && 0 <= b < |layout.order[m]|
    && if r < Down(f, c) && q < Across(f, c) then layout.order[m][b].Stored? && layout.order[m][b].x == r * Across(f, c) + q
       else layout.order[m][b].Padding?
  }

  predicate LaidOutAt(f: Frame, info: ScanInfo, layout: Layout, row: nat, col: nat, b: nat, i: nat, y: nat, x: nat)
    requires ScanFits(f, info) && i < info.compsInScan
  {
    SlotFor(f, layout, row * McusPerRow(f, info) + col, b, info.componentIndex[i],
            row * Span(f, info, i).v + y, col * Span(f, info, i).h + x)
  }

  /** The slots of a scan: in raster order of MCUs, and within each by component, row and
      column. */
  ghost predicate LaidOut(f: Frame, info: ScanInfo, layout: Layout)
    requires ScanFits(f, info)
  {
    && |layout.comps| == info.compsInScan && IsMembership(f, info, layout.membership)
    && |layout.order| == McuRows(f, info) * McusPerRow(f, info)
    && (forall m :: 0 <= m < |layout.order| ==> |layout.order[m]| == |layout.membership|)
    && forall row: nat, col: nat, b: nat, i: nat, y: nat, x: nat ::
         row < McuRows(f, info) && col < McusPerRow(f, info) && InMcu(f, info, layout.membership, b, i, y, x) ==>
           LaidOutAt(f, info, layout, row, col, b, i, y, x)
  }

  lemma {:induction false} Split(q: int, r: int, d: nat)
    requires 0 <= r < d
    ensures (q * d + r) / d == q && (q * d + r) % d == r
  {
    assert (q + 1) * d == q * d + d;
    QuotientIs(q * d + r, d, q);
  }

  lemma {:induction false} SameParts(q: int, r: int, q2: int, r2: int, d: nat)
    requires 0 <= r < d && 0 <= r2 < d && q * d + r == q2 * d + r2
    ensures q == q2 && r == r2
  {
    Split(q, r, d);
    Split(q2, r2, d);
  }

  lemma {:induction false} InRaster(q: nat, r: nat, rows: nat, d: nat)
    requires q < rows && r < d
    ensures q * d + r < rows * d
  {
    MulMonotone(q + 1, rows, d);
    assert (q + 1) * d == q * d + d;
  }

  /** Row and column of an MCU. */
  lemma {:induction false} McuPlace(f: Frame, info: ScanInfo, m: nat) returns (row: nat, col: nat)
    requires ScanFits(f, info) && m < McuRows(f, info) * McusPerRow(f, info)
    ensures row < McuRows(f, info) && col < McusPerRow(f, info) && m == row * McusPerRow(f, info) + col
  {
    hide McuRows, McusPerRow, ScanFits;
    var rows: int, d: int := McuRows(f, info), McusPerRow(f, info);
    assert d > 0;
    row, col := m / d, m % d;
    QuotientBounds(m, d);
    MulMonotone(rows, row, d);
  }

  // ----- such a layout is valid

  /** A slot, taken apart. */
  lemma {:induction false} SlotOf(f: Frame, info: ScanInfo, layout: Layout, m: nat, b: nat) returns (row: nat, col: nat, i: nat, y: nat, x: nat)
    requires ScanFits(f, info) && LaidOut(f, info, layout) && IsSlot(layout, m, b)
    ensures row < McuRows(f, info) && col < McusPerRow(f, info) && m == row * McusPerRow(f, info) + col
    ensures InMcu(f, info, layout.membership, b, i, y, x) && LaidOutAt(f, info, layout, row, col, b, i, y, x)
  {
    hide McuRows, McusPerRow, IsMembership, InMcu, LaidOutAt;
    row, col := McuPlace(f, info, m);
    i, y, x := PlaceOf(f, info, layout.membership, b);
    InMcuComponent(f, info, layout.membership, b, i, y, x);
    assert LaidOutAt(f, info, layout, row, col, b, i, y, x);
  }

  /** Row and column of the block in a slot, in the image. */
  lemma {:induction false} BlockOf(f: Frame, info: ScanInfo, layout: Layout, m: nat, b: nat)
    returns (row: nat, col: nat, i: nat, y: nat, x: nat, r: int, q: int)
    requires ScanFits(f, info) && LaidOut(f, info, layout) && IsStored(layout, m, b)
    ensures m == row * McusPerRow(f, info) + col && InMcu(f, info, layout.membership, b, i, y, x)
    ensures i < info.compsInScan && layout.membership[b] == i && y < Span(f, info, i).v && x < Span(f, info, i).h
    ensures r == row * Span(f, info, i).v + y && q == col * Span(f, info, i).h + x
    ensures 0 <= r < Down(f, info.componentIndex[i]) && 0 <= q < Across(f, info.componentIndex[i])
    ensures layout.order[m][b].x == r * Across(f, info.componentIndex[i]) + q
  {
    hide McuRows, McusPerRow, InMcu, Across, Down, Span, LaidOut;
    row, col, i, y, x := SlotOf(f, info, layout, m, b);
    InMcuComponent(f, info, layout.membership, b, i, y, x);
    r, q := row * Span(f, info, i).v + y, col * Span(f, info, i).h + x;
    assert SlotFor(f, layout, m, b, info.componentIndex[i], r, q);
    MulMonotone(0, row, Span(f, info, i).v);
    MulMonotone(0, col, Span(f, info, i).h);
  }

  lemma {:induction false} InMcuComponent(f: Frame, info: ScanInfo, membership: seq<nat>, b: nat, i: nat, y: nat, x: nat)
    requires ScanFits(f, info) && InMcu(f, info, membership, b, i, y, x)
    ensures i < info.compsInScan && b < |membership| && membership[b] == i
    ensures y < Span(f, info, i).v && x < Span(f, info, i).h
  {
  }

  lemma {:induction false} SlotsAreInside(f: Frame, info: ScanInfo, layout: Layout, coefs: Coefs)
    requires Fits(f, coefs) && ScanFits(f, info) && LaidOut(f, info, layout)
    ensures SlotsFit(info, layout, coefs)
  {
    hide McuRows, McusPerRow, InMcu, Across, Down, Span;
    forall b | 0 <= b < |layout.membership|
      ensures layout.membership[b] < |layout.comps| && 0 <= Comp(info, layout, b) < |coefs|
    {
      var i, y, x := PlaceOf(f, info, layout.membership, b);
      InMcuComponent(f, info, layout.membership, b, i, y, x);
    }
    forall m, b | IsStored(layout, m, b)
      ensures layout.order[m][b].x < |coefs[Comp(info, layout, b)]|
    {
      var row, col, i, y, x, r, q := BlockOf(f, info, layout, m, b);
      InRaster(r, q, Down(f, info.componentIndex[i]), Across(f, info.componentIndex[i]));
    }
  }

  /** Different slots hold different blocks. */
  lemma {:induction false} OnePlace(f: Frame, info: ScanInfo, layout: Layout, coefs: Coefs, m: nat, b: nat, m2: nat, b2: nat)
    requires Fits(f, coefs) && ScanFits(f, info) && LaidOut(f, info, layout)
    requires |info.componentIndex| == MAX_COMPS_IN_SCAN && ComponentsOk(|f.sampling|, info)
    requires SlotsFit(info, layout, coefs) && IsStored(layout, m, b)
    requires Holds(info, layout, coefs, m2, b2, Comp(info, layout, b), layout.order[m][b].x)
    ensures m == m2 && b == b2
  {
    hide McuRows, McusPerRow, InMcu, Across, Down, Span, LaidOut, ComponentsOk, SlotsFit, Fits;
    MembershipInside(info, layout, coefs, b);
    MembershipInside(info, layout, coefs, b2);
    var row, col, i, y, x, r, q := BlockOf(f, info, layout, m, b);
    var row2, col2, i2, y2, x2, r2, q2 := BlockOf(f, info, layout, m2, b2);
    SameComponent(|f.sampling|, info, i, i2);
    SpanPositive(f, info, i);
    SameParts(r, q, r2, q2, Across(f, info.componentIndex[i]));
    SameParts(row, y, row2, y2, Span(f, info, i).v);
    SameParts(col, x, col2, x2, Span(f, info, i).h);
    SamePlace(f, info, layout.membership, b, b2, i, y, x);
  }

  lemma {:induction false} MembershipInside(info: ScanInfo, layout: Layout, coefs: Coefs, b: nat)
    requires SlotsFit(info, layout, coefs) && b < |layout.membership|
    ensures layout.membership[b] < |info.componentIndex| && Comp(info, layout, b) == info.componentIndex[layout.membership[b]]
  {
  }

  lemma {:induction false} SamePlace(f: Frame, info: ScanInfo, membership: seq<nat>, b: nat, b2: nat, i: nat, y: nat, x: nat)
    requires ScanFits(f, info) && InMcu(f, info, membership, b, i, y, x) && InMcu(f, info, membership, b2, i, y, x)
    ensures b == b2
  {
  }

  lemma {:induction false} SameComponent(n: nat, info: ScanInfo, i: nat, i2: nat)
    requires |info.componentIndex| == MAX_COMPS_IN_SCAN && ComponentsOk(n, info) && i < info.compsInScan && i2 < info.compsInScan
    requires info.componentIndex[i] == info.componentIndex[i2]
    ensures i == i2
  {
    if i < i2 {
      Increasing(n, info, i, i2);
    } else if i2 < i {
      Increasing(n, info, i2, i);
    }
  }

  /** A row or column of blocks lies in a row or column of MCUs. */
  lemma {:induction false} WithinMcus(size: nat, samp: nat, unit: nat, r: nat)
    requires samp > 0 && unit > 0 && r < RoundUp(size * samp, unit)
    ensures r / samp < RoundUp(size, unit)
  {
    var q: int := r / samp;
    BelowRoundUp(size * samp, unit, r);
    BelowRoundUp(size, unit, q);
    QuotientBounds(r, samp);
    MulMonotone(q * samp, r, unit);
    assert q * samp * unit == (q * unit) * samp;
    MulMonotone(size, q * unit, samp);
  }

  /** Every block of a component in the scan has a slot. */
  lemma {:induction false} HasPlace(f: Frame, info: ScanInfo, layout: Layout, coefs: Coefs, i: nat, n: nat)
    requires Fits(f, coefs) && ScanFits(f, info) && LaidOut(f, info, layout) && SlotsFit(info, layout, coefs)
    requires i < info.compsInScan && n < |coefs[info.componentIndex[i]]|
    ensures Visited(info, layout, coefs, info.componentIndex[i], n)
  {
    var c, span := info.componentIndex[i], Span(f, info, i);
    var across: int, down: int := Across(f, c), Down(f, c);
    SpanPositive(f, info, i);
    var r, q, row, col := RasterPlace(f, info, i, n);
    hide Across, Down, McuRows, McusPerRow, LaidOut, SlotsFit, Fits, Span;
    var y, x := r - row * span.v, q - col * span.h;
    PartBounds(r, span.v, row);
    PartBounds(q, span.h, col);
    MembershipOf(f, info, layout);
    var b := PlaceIn(f, info, layout.membership, i, y, x);
    InMcuComponent(f, info, layout.membership, b, i, y, x);
    LaidOutThere(f, info, layout, row, col, b, i, y, x);
    var m := row * McusPerRow(f, info) + col;
    assert SlotFor(f, layout, m, b, c, r, q);
    InOrder(f, info, layout, row, col);
    assert Holds(info, layout, coefs, m, b, c, n);
  }

  lemma {:induction false} MembershipOf(f: Frame, info: ScanInfo, layout: Layout)
    requires ScanFits(f, info) && LaidOut(f, info, layout)
    ensures IsMembership(f, info, layout.membership)
  {
  }

  lemma {:induction false} LaidOutThere(f: Frame, info: ScanInfo, layout: Layout, row: nat, col: nat, b: nat, i: nat, y: nat, x: nat)
    requires ScanFits(f, info) && LaidOut(f, info, layout)
    requires row < McuRows(f, info) && col < McusPerRow(f, info) && InMcu(f, info, layout.membership, b, i, y, x)
    ensures i < info.compsInScan && LaidOutAt(f, info, layout, row, col, b, i, y, x)
  {
  }

  lemma {:induction false} InOrder(f: Frame, info: ScanInfo, layout: Layout, row: nat, col: nat)
    requires ScanFits(f, info) && LaidOut(f, info, layout) && row < McuRows(f, info) && col < McusPerRow(f, info)
    ensures 0 <= row * McusPerRow(f, info) + col < |layout.order|
    ensures |layout.order[row * McusPerRow(f, info) + col]| == |layout.membership|
  {
    hide McuRows, McusPerRow, IsMembership;
    InRaster(row, col, McuRows(f, info), McusPerRow(f, info));
  }

  lemma {:induction false} PartBounds(r: nat, d: nat, q: nat)
    requires d > 0 && q == r / d
    ensures 0 <= r - q * d < d
  {
    QuotientBounds(r, d);
  }

  lemma {:induction false} SomeColumns(down: nat, across: nat)
    requires 0 < down * across
    ensures across > 0
  {
  }

  lemma {:induction false} RowAndColumn(n: nat, down: nat, across: nat) returns (r: nat, q: nat)
    requires n < down * across
    ensures r < down && q < across && n == r * across + q
  {
    SomeColumns(down, across);
    r, q := n / across, n % across;
    QuotientBounds(n, across);
    MulMonotone(down, r, across);
  }

  /** Row and column of block `n`, and of the MCU they are in. */
  lemma {:induction false} RasterPlace(f: Frame, info: ScanInfo, i: nat, n: nat) returns (r: nat, q: nat, row: nat, col: nat)
    requires ScanFits(f, info) && i < info.compsInScan
    requires n < Down(f, info.componentIndex[i]) * Across(f, info.componentIndex[i])
    requires Span(f, info, i).h >= 1 && Span(f, info, i).v >= 1
    ensures r < Down(f, info.componentIndex[i]) && q < Across(f, info.componentIndex[i]) && n == r * Across(f, info.componentIndex[i]) + q
    ensures row == r / Span(f, info, i).v && col == q / Span(f, info, i).h
    ensures row < McuRows(f, info) && col < McusPerRow(f, info)
  {
    var c := info.componentIndex[i];
    r, q := RowAndColumn(n, Down(f, c), Across(f, c));
    row, col := r / Span(f, info, i).v, q / Span(f, info, i).h;
    if info.compsInScan > 1 {
      WithinMcus(f.height, f.sampling[c].v, f.maxV * DCT_SIZE, r);
      WithinMcus(f.width, f.sampling[c].h, f.maxH * DCT_SIZE, q);
    }
  }

  /** The layout of a scan, for any size and sampling, is one that visits every block of its
      components exactly once. */
  lemma {:induction false} LaidOutIsValid(f: Frame, info: ScanInfo, layout: Layout, coefs: Coefs)
    requires Fits(f, coefs) && ScanFits(f, info) && LaidOut(f, info, layout) && 0 < layout.end.marker < 255
    requires |info.componentIndex| == MAX_COMPS_IN_SCAN && ComponentsOk(|f.sampling|, info)
    ensures ValidLayout(info, layout, coefs)
  {
    SlotsAreInside(f, info, layout, coefs);
    MembershipOf(f, info, layout);
    if info.compsInScan == 1 {
      OnlyMember(f, info, layout.membership);
    }
    hide Fits, LaidOut, SlotsFit, ComponentsOk;
    assert VisitsOnce(info, layout, coefs) by {
      forall m, b, m2, b2 | IsStored(layout, m, b) && Holds(info, layout, coefs, m2, b2, Comp(info, layout, b), layout.order[m][b].x)
        ensures m == m2 && b == b2
      {
        OnePlace(f, info, layout, coefs, m, b, m2, b2);
      }
      forall c, n | 0 <= c < |coefs| && 0 <= n < |coefs[c]| && Covers(info, c, info.ss)
        ensures Visited(info, layout, coefs, c, n)
      {
        var i :| 0 <= i < info.compsInScan && i < |info.componentIndex| && info.componentIndex[i] == c;
        HasPlace(f, info, layout, coefs, i, n);
      }
    }
    forall m, b | IsSlot(layout, m, b) && !IsStored(layout, m, b)
      ensures info.compsInScan > 1
    {
      if info.compsInScan == 1 {
        NeverPadded(f, info, layout, m, b);
      }
    }
  }

  lemma {:induction false} OnlyMember(f: Frame, info: ScanInfo, membership: seq<nat>)
    requires ScanFits(f, info) && IsMembership(f, info, membership) && info.compsInScan == 1
    ensures membership == [0]
  {
    assert BlocksBefore(f, info, 0) == 0;
    assert MemberAt(f, info, membership, 0, 0);
  }

  /** A scan of one component has a slot for each block, and no other. */
  lemma {:induction false} NeverPadded(f: Frame, info: ScanInfo, layout: Layout, m: nat, b: nat)
    requires ScanFits(f, info) && LaidOut(f, info, layout) && IsSlot(layout, m, b) && info.compsInScan == 1
    ensures IsStored(layout, m, b)
  {
    var row, col, i, y, x := SlotOf(f, info, layout, m, b);
    InMcuComponent(f, info, layout.membership, b, i, y, x);
    hide Across, Down;
    assert SlotFor(f, layout, m, b, info.componentIndex[i], row, col);
  }

  // ----- building it

  /** How a scan is coded: conditioning and tables of its components, restart interval and
      what follows it; and what the encoder pads with. */
  datatype Coding = Coding(comps: seq<Component>, restartInterval: nat, end: End, padding: (nat, nat) -> Block)

  predicate ValidCoding(info: ScanInfo, coding: Coding) {
    |coding.comps| == info.compsInScan && 0 < coding.end.marker < 255
  }

  /** The slots of one MCU, so far. */
  ghost predicate McuSlots(f: Frame, info: ScanInfo, membership: seq<nat>, row: nat, col: nat, slots: seq<Slot>)
    requires ScanFits(f, info)
  {
    && |slots| <= |membership|
    && forall b: nat, i: nat, y: nat, x: nat :: b < |slots| && InMcu(f, info, membership, b, i, y, x) ==>
         InPlace(f, info, row, col, slots[b], i, y, x)
  }

  predicate InPlace(f: Frame, info: ScanInfo, row: nat, col: nat, slot: Slot, i: nat, y: nat, x: nat)
    requires ScanFits(f, info) && i < info.compsInScan
  {
    var c, r, q := info.componentIndex[i], row * Span(f, info, i).v + y, col * Span(f, info, i).h + x;
    if r < Down(f, c) && q < Across(f, c) then slot.Stored? && slot.x == r * Across(f, c) + q else slot.Padding?
  }

  /** One row of blocks of one component in an MCU. */
  method PlaceRow(f: Frame, info: ScanInfo, coding: Coding, membership: seq<nat>, row: nat, col: nat, i: nat, y: nat, slots0: seq<Slot>)
    returns (slots: seq<Slot>)
    requires ScanFits(f, info) && IsMembership(f, info, membership) && i < info.compsInScan && y < Span(f, info, i).v
    requires |slots0| == BlocksBefore(f, info, i) + y * Span(f, info, i).h && McuSlots(f, info, membership, row, col, slots0)
    ensures |slots| == BlocksBefore(f, info, i) + y * Span(f, info, i).h + Span(f, info, i).h
    ensures McuSlots(f, info, membership, row, col, slots)
  {
    hide IsMembership, McuSlots, Across, Down, Span, BlocksBefore;
    slots := slots0;
    var c, span := info.componentIndex[i], Span(f, info, i);
    for x := 0 to span.h
      invariant |slots| == BlocksBefore(f, info, i) + y * span.h + x && McuSlots(f, info, membership, row, col, slots)
    {
      var r, q := row * span.v + y, col * span.h + x;
      var slot := Padding(coding.padding(row * McusPerRow(f, info) + col, |slots|));
      if r < Down(f, c) && q < Across(f, c) {
        MulMonotone(0, r, Across(f, c));
        slot := Stored(r * Across(f, c) + q);
      }
      NextSlot(f, info, membership, row, col, slots, slot, i, y, x);
      slots := slots + [slot];
    }
  }

  method PlaceMcu(f: Frame, info: ScanInfo, coding: Coding, membership: seq<nat>, row: nat, col: nat) returns (slots: seq<Slot>)
    requires ScanFits(f, info) && IsMembership(f, info, membership)
    ensures |slots| == |membership| && McuSlots(f, info, membership, row, col, slots)
  {
    NoSlots(f, info, membership, row, col);
    assert info.compsInScan >= 0;
    hide IsMembership, McuSlots, Span, BlocksBefore, ScanFits;
    slots := [];
    for i := 0 to info.compsInScan
      invariant |slots| == BlocksBefore(f, info, i) && McuSlots(f, info, membership, row, col, slots)
    {
      var v, h: int := Span(f, info, i).v, Span(f, info, i).h;
      for y := 0 to v
        invariant |slots| == BlocksBefore(f, info, i) + y * h && McuSlots(f, info, membership, row, col, slots)
      {
        slots := PlaceRow(f, info, coding, membership, row, col, i, y, slots);
        assert (y + 1) * h == y * h + h;
      }
      NextBlocks(f, info, i);
    }
    AllSlots(f, info, membership);
  }

  lemma {:induction false} NoSlots(f: Frame, info: ScanInfo, membership: seq<nat>, row: nat, col: nat)
    requires ScanFits(f, info)
    ensures McuSlots(f, info, membership, row, col, []) && BlocksBefore(f, info, 0) == 0
  {
  }

  lemma {:induction false} NextBlocks(f: Frame, info: ScanInfo, i: nat)
    requires ScanFits(f, info) && i < info.compsInScan
    ensures BlocksBefore(f, info, i + 1) == BlocksBefore(f, info, i) + Span(f, info, i).v * Span(f, info, i).h
  {
  }

  lemma {:induction false} AllSlots(f: Frame, info: ScanInfo, membership: seq<nat>)
    requires ScanFits(f, info) && IsMembership(f, info, membership)
    ensures |membership| == BlocksBefore(f, info, info.compsInScan)
  {
  }

  lemma {:induction false} NextSlot(f: Frame, info: ScanInfo, membership: seq<nat>, row: nat, col: nat, slots: seq<Slot>, slot: Slot, i: nat, y: nat, x: nat)
    requires ScanFits(f, info) && IsMembership(f, info, membership) && McuSlots(f, info, membership, row, col, slots)
    requires i < info.compsInScan && y < Span(f, info, i).v && x < Span(f, info, i).h
    requires |slots| == BlocksBefore(f, info, i) + (y * Span(f, info, i).h + x)
    requires var c, r, q := info.componentIndex[i], row * Span(f, info, i).v + y, col * Span(f, info, i).h + x;
             if r < Down(f, c) && q < Across(f, c) then slot.Stored? && slot.x == r * Across(f, c) + q else slot.Padding?
    ensures McuSlots(f, info, membership, row, col, slots + [slot])
  {
    hide IsMembership, Across, Down, Span;
    var b := PlaceIn(f, info, membership, i, y, x);
    InMcuIndex(f, info, membership, b, i, y, x);
    assert InPlace(f, info, row, col, slot, i, y, x);
    hide InPlace, InMcu;
    forall b2: nat, i2: nat, y2: nat, x2: nat | b2 < |slots| + 1 && InMcu(f, info, membership, b2, i2, y2, x2)
      ensures i2 < info.compsInScan && InPlace(f, info, row, col, (slots + [slot])[b2], i2, y2, x2)
    {
      InMcuComponent(f, info, membership, b2, i2, y2, x2);
      if b2 == b {
        OnePlaceInMcu(f, info, membership, b, i, y, x, i2, y2, x2);
      }
    }
  }

  lemma {:induction false} InMcuIndex(f: Frame, info: ScanInfo, membership: seq<nat>, b: nat, i: nat, y: nat, x: nat)
    requires ScanFits(f, info) && InMcu(f, info, membership, b, i, y, x)
    ensures b == BlocksBefore(f, info, i) + (y * Span(f, info, i).h + x)
    ensures b < |membership|
  {
  }

  /** All MCUs of a scan. */
  method BuildLayout(f: Frame, info: ScanInfo, coding: Coding, membership: seq<nat>) returns (layout: Layout)
    requires ScanFits(f, info) && IsMembership(f, info, membership) && ValidCoding(info, coding)
    ensures LaidOut(f, info, layout) && layout.end == coding.end && layout.comps == coding.comps
    ensures layout.membership == membership && layout.restartInterval == coding.restartInterval
  {
    hide IsMembership, McuRows, McusPerRow, McuSlots;
    var order, perRow := [], McusPerRow(f, info);
    for row := 0 to McuRows(f, info)
      invariant |order| == row * perRow
      invariant forall r: nat, q: nat :: r < row && q < perRow ==> McuPlaced(f, info, membership, order, r, q)
    {
      for col := 0 to perRow
        invariant |order| == row * perRow + col
        invariant forall r: nat, q: nat :: r < row && q < perRow ==> McuPlaced(f, info, membership, order, r, q)
        invariant forall q: nat :: q < col ==> McuPlaced(f, info, membership, order, row, q)
      {
        ghost var before := order;
        var slots := PlaceMcu(f, info, coding, membership, row, col);
        order := order + [slots];
        StillPlaced(f, info, membership, before, slots);
      }
      assert (row + 1) * perRow == row * perRow + perRow;
    }
    layout := Layout(coding.comps, membership, order, coding.restartInterval, coding.end);
    AllPlaced(f, info, layout);
  }

  ghost predicate McuPlaced(f: Frame, info: ScanInfo, membership: seq<nat>, order: seq<seq<Slot>>, row: nat, col: nat)
    requires ScanFits(f, info)
  {
    var m := row * McusPerRow(f, info) + col;
    0 <= m < |order| && |order[m]| == |membership| && McuSlots(f, info, membership, row, col, order[m])
  }

  lemma {:induction false} StillPlaced(f: Frame, info: ScanInfo, membership: seq<nat>, order: seq<seq<Slot>>, slots: seq<Slot>)
    requires ScanFits(f, info)
    ensures forall r: nat, q: nat :: McuPlaced(f, info, membership, order, r, q) ==> McuPlaced(f, info, membership, order + [slots], r, q)
  {
    hide McuSlots, McusPerRow;
  }

  lemma {:induction false} AllPlaced(f: Frame, info: ScanInfo, layout: Layout)
    requires ScanFits(f, info) && IsMembership(f, info, layout.membership) && |layout.comps| == info.compsInScan
    requires |layout.order| == McuRows(f, info) * McusPerRow(f, info)
    requires forall r: nat, q: nat :: r < McuRows(f, info) && q < McusPerRow(f, info) ==>
               McuPlaced(f, info, layout.membership, layout.order, r, q)
    ensures LaidOut(f, info, layout)
  {
    hide IsMembership, McuRows, McusPerRow, InMcu, Across, Down, Span;
    forall m | 0 <= m < |layout.order|
      ensures |layout.order[m]| == |layout.membership|
    {
      var row, col := McuPlace(f, info, m);
      assert McuPlaced(f, info, layout.membership, layout.order, row, col);
    }
    forall row: nat, col: nat, b: nat, i: nat, y: nat, x: nat
      | row < McuRows(f, info) && col < McusPerRow(f, info) && InMcu(f, info, layout.membership, b, i, y, x)
      ensures i < info.compsInScan && LaidOutAt(f, info, layout, row, col, b, i, y, x)
    {
      InMcuComponent(f, info, layout.membership, b, i, y, x);
      assert McuPlaced(f, info, layout.membership, layout.order, row, col);
      assert InPlace(f, info, row, col, layout.order[row * McusPerRow(f, info) + col][b], i, y, x);
    }
  }

  // ----- an image of any size through any accepted script

  /** `Overflow`: a DC difference the decoder refuses. */
  datatype FrameOutcome = Decoded | Overflow | BadMcuSize

  predicate McuTooBig(f: Frame, info: ScanInfo)
    requires ScanFits(f, info)
  {
    info.compsInScan > 1 && BlocksBefore(f, info, info.compsInScan) > MAX_BLOCKS_IN_MCU
  }

  lemma {:induction false} AcceptedScanFits(f: Frame, scans: seq<ScanInfo>, i: nat)
    requires ValidFrame(f) && WellFormed(scans) && scans != [] && ScansOk(|f.sampling|, scans, |scans|) && i < |scans|
    ensures ScanFits(f, scans[i]) && ComponentsOk(|f.sampling|, scans[i])
  {
    hide LastBit, ProgressionOk, SequentialOk;
    assert ScanOk(|f.sampling|, scans, i);
    forall ci | 0 <= ci < scans[i].compsInScan
      ensures 0 <= scans[i].componentIndex[ci] < |f.sampling|
    {
      assert IndexOk(|f.sampling|, scans[i], ci);
    }
  }

  /** Scan `i` has the layout its size and sampling call for. */
  ghost predicate PlannedAt(f: Frame, scans: seq<ScanInfo>, codings: seq<Coding>, layouts: seq<Layout>, i: nat) {
    && i < |scans| && i < |codings| && i < |layouts| && ScanFits(f, scans[i])
    && LaidOut(f, scans[i], layouts[i]) && layouts[i].end == codings[i].end && layouts[i].comps == codings[i].comps
    && layouts[i].restartInterval == codings[i].restartInterval
  }

  /** The layouts of all scans; fails if one has too many blocks in an MCU. */
  method PlanScans(f: Frame, scans: seq<ScanInfo>, codings: seq<Coding>) returns (ok: bool, layouts: seq<Layout>)
    requires ValidFrame(f) && WellFormed(scans) && scans != [] && ScansOk(|f.sampling|, scans, |scans|) && |codings| == |scans|
    requires forall i :: 0 <= i < |scans| ==> ValidCoding(scans[i], codings[i])
    ensures ok <==> forall i :: 0 <= i < |scans| ==> ScanFits(f, scans[i]) && !McuTooBig(f, scans[i])
    ensures ok ==> |layouts| == |scans| && forall i :: 0 <= i < |scans| ==> PlannedAt(f, scans, codings, layouts, i)
  {
    hide ScanFits, LaidOut, ScansOk, BlocksBefore;
    layouts := [];
    for i := 0 to |scans|
      invariant |layouts| == i
      invariant forall j :: 0 <= j < i ==> ScanFits(f, scans[j]) && !McuTooBig(f, scans[j]) && PlannedAt(f, scans, codings, layouts, j)
    {
      AcceptedScanFits(f, scans, i);
      var membership;
      ok, membership := PerScanSetup(f, scans[i]);
      if !ok {
        assert McuTooBig(f, scans[i]);
        return;
      }
      var layout := BuildLayout(f, scans[i], codings[i], membership);
      ghost var before := layouts;
      layouts := layouts + [layout];
      assert forall j :: 0 <= j < i ==> PlannedAt(f, scans, codings, before, j) ==> PlannedAt(f, scans, codings, layouts, j);
    }
    ok := true;
  }

  /** The layouts are valid for every image of this size. */
  lemma {:induction false} PlannedLayoutsAreValid(f: Frame, scans: seq<ScanInfo>, codings: seq<Coding>, layouts: seq<Layout>, coefs: Coefs)
    requires Fits(f, coefs) && WellFormed(scans) && scans != [] && ScansOk(|f.sampling|, scans, |scans|)
    requires |codings| == |layouts| == |scans| && forall i :: 0 <= i < |scans| ==> ValidCoding(scans[i], codings[i])
    requires forall i :: 0 <= i < |scans| ==> PlannedAt(f, scans, codings, layouts, i)
    ensures forall i :: 0 <= i < |scans| ==> ValidLayout(scans[i], layouts[i], coefs)
  {
    hide ScansOk, LaidOut, Fits, ScanFits, ComponentsOk, ValidLayout;
    FrameIsValid(f, coefs);
    forall i | 0 <= i < |scans|
      ensures ValidLayout(scans[i], layouts[i], coefs)
    {
      AcceptedScanFits(f, scans, i);
      assert PlannedAt(f, scans, codings, layouts, i);
      assert |scans[i].componentIndex| == MAX_COMPS_IN_SCAN;
      LaidOutIsValid(f, scans[i], layouts[i], coefs);
    }
  }

  lemma {:induction false} FrameIsValid(f: Frame, coefs: Coefs)
    requires Fits(f, coefs)
    ensures ValidFrame(f) && |coefs| == |f.sampling|
  {
  }

  /** Every image, of whatever size and sampling, through every script the validator accepts:
      unless an MCU gets too many blocks or a DC difference is too large, each coefficient
      is known to the precision of the last scan that codes it, and the image comes back
      exactly if that is bit 0 everywhere. Padding blocks, whatever they hold, do no harm. */
  method TranscodeFrame(f: Frame, scans: seq<ScanInfo>, codings: seq<Coding>, coefs: Coefs)
    returns (outcome: FrameOutcome, image: Coefs, layouts: seq<Layout>)
    requires Fits(f, coefs) && WellFormed(scans) && ValidScript(|f.sampling|, scans) && |codings| == |scans|
    requires forall i :: 0 <= i < |scans| ==> ValidCoding(scans[i], codings[i])
    ensures outcome == BadMcuSize <==> exists i :: 0 <= i < |scans| && ScanFits(f, scans[i]) && McuTooBig(f, scans[i])
    ensures outcome != BadMcuSize ==>
              && |layouts| == |scans| && (forall i :: 0 <= i < |scans| ==> PlannedAt(f, scans, codings, layouts, i))
              && (forall i :: 0 <= i < |scans| ==> ValidLayout(scans[i], layouts[i], coefs))
              && (outcome == Decoded <==> forall i :: 0 <= i < |scans| ==> SmoothAt(|coefs|, scans, layouts, coefs, i))
    ensures outcome == Decoded ==> KnownImage(scans, |scans|, coefs, image)
    ensures outcome == Decoded && (forall c, k :: 0 <= c < |coefs| && 0 <= k < 64 ==> LastBit(scans, |scans|, c, k) == 0) ==>
              image == coefs
  {
    hide Fits, ScanFits, LaidOut, McuTooBig, PlannedAt, ValidLayout, LastBit, KnownImage, ScanOk, SmoothAt;
    FrameIsValid(f, coefs);
    image := [];
    var ok;
    ok, layouts := PlanScans(f, scans, codings);
    if !ok {
      forall i | 0 <= i < |scans|
        ensures ScanFits(f, scans[i])
      {
        AcceptedScanFits(f, scans, i);
      }
      return BadMcuSize, image, layouts;
    }
    PlannedLayoutsAreValid(f, scans, codings, layouts, coefs);
    ok, image := TranscodeImage(|coefs|, scans, layouts, coefs);
    outcome := if ok then Decoded else Overflow;
  }
}
