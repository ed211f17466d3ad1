/** When the final flush of the 64-bit bit writer can lose bits (jchuff.c, flush_bits), seen
    from the scan: never with short end-of-block codes, and a scan for which it does. */
module FlushLoss {
  import opened Shifts
  import opened ProbabilityTable
  import opened ByteCode
  import opened BitStrings
  import opened BitPacking
  import opened CodeLengths
  import opened Frequencies
  import opened OptimalTable
  import opened DerivedTable
  import opened BitWriters
  import opened Binarisation
  import opened HuffmanPasses
  import opened HuffmanDecoding

  const SHORT := 10

  // ----- how a segment ends

  /** With a coefficient or an end-of-block. */
  predicate EndsBlock(emits: seq<Emit>) {
    emits == [] || EndOfBlock(emits[|emits| - 1])
  }

  predicate EndOfBlock(e: Emit) {
    e.ac && (e.nbits > 0 || e.symbol == 0)
  }

  lemma {:induction false} AcEndsBlock(block: Block, tbl: nat, k: nat, r: nat)
    requires k <= 64
    ensures EndsBlock(AcEmits(block, tbl, k, r))
    decreases 64 - k
  {
    if k < 64 {
      AcEmitsStep(block, tbl, k, r);
      AcEndsBlock(block, tbl, k + 1, if block[k] == 0 then r + 1 else 0);
      if block[k] != 0 {
        ExtendValue(block[k]);
      }
      hide AcEmits, ZeroRuns, NBits, ValueOf;
    }
  }

  lemma {:induction false} BlockEndsBlock(block: Block, last: int, comp: Comp)
    ensures EndsBlock(BlockEmits(block, last, comp)) && BlockEmits(block, last, comp) != []
  {
    AcEndsBlock(block, comp.acTbl, 1, 0);
    var q := AcNext(block, comp.acTbl, 1);
    hide AcEmits, NBits, ValueOf;
    assert AcEmits(block, comp.acTbl, 1, 0) != [];
  }

  lemma {:induction false} McuEndsBlock(layout: Layout, last: seq<int>, mcu: seq<Block>, b: nat)
    requires ValidLayout(layout) && |last| == |layout.comps| && |mcu| == |layout.membership| && b <= |mcu|
    ensures EndsBlock(McuEmits(layout, last, mcu, b))
    decreases |mcu| - b
  {
    if b < |mcu| {
      var c := layout.membership[b];
      BlockEndsBlock(mcu[b], last[c], layout.comps[c]);
      McuEndsBlock(layout, last[c := mcu[b][0]], mcu, b + 1);
      hide BlockEmits, EndsBlock;
      BothEndBlocks(BlockEmits(mcu[b], last[c], layout.comps[c]), McuEmits(layout, last[c := mcu[b][0]], mcu, b + 1));
    } else {
      assert McuEmits(layout, last, mcu, b) == [];
    }
  }

  lemma {:induction false} BothEndBlocks(a: seq<Emit>, b: seq<Emit>)
    requires EndsBlock(a) && EndsBlock(b)
    ensures EndsBlock(a + b)
  {
    hide EndOfBlock;
    assert b == [] ==> a + b == a;
  }

  lemma {:induction false} SegmentsEndBlocks(layout: Layout, st: Progress, mcus: seq<seq<Block>>)
    requires ValidLayout(layout) && ValidProgress(layout, st) && ValidMcus(layout, mcus)
    ensures forall i :: 0 <= i < |Segments(layout, st, mcus)| ==> EndsBlock(Segments(layout, st, mcus)[i])
    decreases |mcus|
  {
    if mcus != [] {
      var now := Restarted(layout, st);
      var next := now.(last := McuLast(layout, now.last, mcus[0], 0));
      McuEndsBlock(layout, now.last, mcus[0], 0);
      SegmentsEndBlocks(layout, next, mcus[1..]);
      SegmentsStep(layout, st, mcus);
      hide Segments, McuEmits, McuLast, EndOfBlock;
      var emits, onward := McuEmits(layout, now.last, mcus[0], 0), Segments(layout, next, mcus[1..]);
      var segments := Continued(emits, onward);
      BothEndBlocks(emits, onward[0]);
      forall i | 0 <= i < |segments|
        ensures EndsBlock(segments[i])
      {
        if i > 0 {
          assert segments[i] == onward[i];
        }
      }
    }
  }

  // ----- no loss with short end-of-block codes

  lemma {:induction false} BelowWordBits(puts: seq<Put>)
    requires forall i :: 0 <= i < |puts| ==> ValidPut(puts[i])
    ensures Waiting(puts) < WORD
  {
    if puts != [] {
      BelowWordBits(puts[..|puts| - 1]);
    }
  }

  /** A segment whose last code word, if it is an end-of-block, has at most ten bits. */
  lemma {:induction false} ShortEndWaits(codes: Codes, emits: seq<Emit>, puts: seq<Put>)
    requires Puts(codes, emits, puts) && EndsBlock(emits) && forall i :: 0 <= i < |puts| ==> ValidPut(puts[i])
    requires forall i :: 0 <= i < |emits| ==> emits[i].nbits <= MAX_COEF_BITS || !emits[i].ac
    requires forall i :: 0 <= i < |emits| && emits[i].ac && emits[i].symbol == 0 ==> puts[i].size <= SHORT
    ensures Waiting(puts) <= FLUSHABLE
  {
    if puts != [] {
      var n := |puts| - 1;
      assert puts[n] == PutOf(codes, emits[n]) && ValidPut(puts[n]) && EndOfBlock(emits[n]);
      BelowWordBits(puts[..n]);
    }
  }

  /** No component's end-of-block code has more than ten bits: something to look up in the
      tables before a scan is written. */
  predicate ShortEndOfBlocks(layout: Layout, codes: Codes)
    requires ValidLayout(layout) && ShapedCodes(codes)
  {
    forall c :: 0 <= c < |layout.comps| ==> codes.size[SlotOf(layout.comps[c], true)][0] <= SHORT
  }

  /** Then no segment of the scan loses anything in its final flush. */
  lemma {:induction false} ShortEndOfBlocksLoseNothing(layout: Layout, codes: Codes, mcus: seq<seq<Block>>, puts: seq<seq<Put>>)
    requires ValidLayout(layout) && ValidMcus(layout, mcus) && ScanInRange(layout, Start(layout), mcus) && ShapedCodes(codes)
    requires AllPuts(codes, Segments(layout, Start(layout), mcus), puts) && ShortEndOfBlocks(layout, codes)
    requires forall i, j :: 0 <= i < |puts| && 0 <= j < |puts[i]| ==> ValidPut(puts[i][j])
    ensures forall i :: 0 <= i < |puts| ==> Waiting(puts[i]) <= FLUSHABLE
    ensures NoneLost(puts)
  {
    hide Segments, ScanInRange, ScanEmits, NothingLost, Waiting;
    var segments := Segments(layout, Start(layout), mcus);
    ScanExpected(layout, Start(layout), mcus);
    SegmentsAreScan(layout, Start(layout), mcus);
    SegmentsEndBlocks(layout, Start(layout), mcus);
    forall i | 0 <= i < |puts|
      ensures Waiting(puts[i]) <= FLUSHABLE && NothingLost(puts[i])
    {
      assert Puts(codes, segments[i], puts[i]);
      forall j | 0 <= j < |segments[i]|
        ensures segments[i][j].ac ==> segments[i][j].nbits <= MAX_COEF_BITS
        ensures segments[i][j].ac && segments[i][j].symbol == 0 ==> puts[i][j].size <= SHORT
      {
        SegmentMember(segments, i, j);
        assert Expected(layout, segments[i][j]);
      }
      ShortEndWaits(codes, segments[i], puts[i]);
      RoomForAll(puts[i]);
    }
  }

  /** Coding a whole scan, with a condition on the tables alone: they are built, and if no
      end-of-block code has more than ten bits, the decoder reads back the same blocks. */
  method RoundTripByTables(layout: Layout, mcus: seq<seq<Block>>, end: nat)
    returns (ok: bool, codes: Codes, decoded: seq<seq<seq<Coef>>>)
    requires ValidLayout(layout) && ValidMcus(layout, mcus) && mcus != [] && 0 < end < 255
    requires forall c :: 0 <= c < |layout.comps| ==> HasBlock(layout, c)
    requires |ScanEmits(layout, Start(layout), mcus)| + 1 <= MAX_FREQ
    ensures ScanInRange(layout, Start(layout), mcus) && |ScanEmits(layout, Start(layout), mcus)| + 1 < 9227465 ==> ok
    ensures ok ==> ShapedCodes(codes)
    ensures ok && ShortEndOfBlocks(layout, codes) ==> decoded == mcus
  {
    hide Segments, ScanInRange, ScanEmits, NoneLost, AllPuts, Waiting, ValidPut;
    var puts;
    ok, codes, puts, decoded := HuffmanRoundTrip(layout, mcus, end);
    if ok && ShortEndOfBlocks(layout, codes) {
      ShortEndOfBlocksLoseNothing(layout, codes, mcus, puts);
    }
  }

  // ----- a scan that loses bits

  lemma {:induction false} NoMoreSizes(bits: seq<nat>, l: nat, m: nat)
    requires l <= m < |bits| && forall k :: l < k <= m ==> bits[k] == 0
    ensures Sizes(bits, m) == Sizes(bits, l)
    decreases m
  {
    if l < m {
      NoMoreSizes(bits, l, m - 1);
    }
  }

  /** One code of the given length. */
  function OneLength(l: nat): (bits: seq<nat>)
    ensures |bits| == LONGEST + 1
  {
    seq(LONGEST + 1, k => if k == l then 1 else 0)
  }

  lemma {:induction false} OneSize(l: nat)
    requires 1 <= l <= LONGEST
    ensures Sizes(OneLength(l), LONGEST) == [l]
  {
    var bits := OneLength(l);
    NoMoreSizes(bits, l, LONGEST);
    NoMoreSizes(bits, 0, l - 1);
    NoSizes(bits);
    SizesNext(bits, l);
    hide Sizes;
    assert Repeated(l, 1) == [l];
    assert [] + [l] == [l];
  }

  /** A symbol with the one-bit code, and symbol 0 with one of 16 bits. */
  function ShortAndLong(): (bits: seq<nat>)
    ensures |bits| == LONGEST + 1
  {
    seq(LONGEST + 1, k => if k == 1 || k == LONGEST then 1 else 0)
  }

  lemma {:induction false} ShortAndLongSizes()
    ensures Sizes(ShortAndLong(), LONGEST) == [1, LONGEST]
  {
    var bits := ShortAndLong();
    NoSizes(bits);
    SizesNext(bits, 1);
    NoMoreSizes(bits, 1, LONGEST - 1);
    SizesNext(bits, LONGEST);
    hide Sizes;
    assert Repeated(1, 1) == [1] && Repeated(LONGEST, 1) == [LONGEST];
    assert [] + [1] == [1] && [1] + [LONGEST] == [1, LONGEST];
  }

  /** A table whose only code word, of symbol 0, is all zeros. */
  method ZeroTable(l: nat, isDC: bool) returns (ehufco: seq<nat>, ehufsi: seq<nat>, bits: seq<nat>, huffval: seq<int>)
    requires 1 <= l <= LONGEST
    ensures WellShaped(bits, huffval) && Legal(bits, huffval, if isDC then 15 else 255) && Derived(bits, huffval, ehufco, ehufsi)
    ensures |ehufco| == |ehufsi| == 256 && ehufco[0] == 0 && ehufsi[0] == l
  {
    bits, huffval := OneLength(l), seq(256, _ => 0);
    OneSize(l);
    SpaceLast([l]);
    assert [l][..0] == [];
    Pow2Strict(LONGEST - l, LONGEST);
    assert Space([]) == 0;
    var ok;
    ok, ehufco, ehufsi := MakeDerivedTable(bits, huffval, isDC);
    assert huffval[..1][0] == 0;
    hide Sizes, Space;
    assert CodeAt([l], 0, ehufco[0]);
    ShlZero(LONGEST - l);
    ShlMonotone(ehufco[0], 0, LONGEST - l);
  }

  /** A table that gives symbol 0 the code word 0x8000. */
  method LongTable() returns (ehufco: seq<nat>, ehufsi: seq<nat>, bits: seq<nat>, huffval: seq<int>)
    ensures WellShaped(bits, huffval) && Legal(bits, huffval, 15) && Derived(bits, huffval, ehufco, ehufsi)
    ensures |ehufco| == |ehufsi| == 256 && ehufco[0] == 0x8000 && ehufsi[0] == LONGEST
  {
    hide *;
    bits, huffval := ShortAndLong(), OneThenZeros();
    LongIsLegal();
    var ok;
    ok, ehufco, ehufsi := MakeDerivedTable(bits, huffval, true);
    LongIsDerived(ehufco, ehufsi);
  }

  function OneThenZeros(): seq<int> {
    seq(256, i => if i == 0 then 1 else 0)
  }

  lemma {:induction false} LongIsLegal()
    ensures WellShaped(ShortAndLong(), OneThenZeros()) && Legal(ShortAndLong(), OneThenZeros(), 15)
  {
    ShortAndLongSizes();
    SpaceOfLong();
    ShlConstants(1);
    hide Sizes, Space;
  }

  lemma {:induction false} SpaceOfLong()
    ensures Space([1]) == Pow2(LONGEST - 1) && Space([1, LONGEST]) == Pow2(LONGEST - 1) + 1
  {
    SpaceLast([1, LONGEST]);
    SpaceLast([1]);
    assert [1, LONGEST][..1] == [1] && [1][..0] == [];
    assert Space([]) == 0;
  }

  lemma {:induction false} LongIsDerived(ehufco: seq<nat>, ehufsi: seq<nat>)
    requires WellShaped(ShortAndLong(), OneThenZeros()) && Derived(ShortAndLong(), OneThenZeros(), ehufco, ehufsi)
    ensures |ehufco| == |ehufsi| == 256 && ehufco[0] == 0x8000 && ehufsi[0] == LONGEST
  {
    ShortAndLongSizes();
    SpaceOfLong();
    ShlConstants(1);
    assert [1, LONGEST][..1] == [1];
    assert OneThenZeros()[..2][1] == 0;
    hide Sizes, Space;
    assert CodeAt([1, LONGEST], 1, ehufco[0]);
  }

  const ZeroBlock: Block := seq(64, _ => 0)

  /** Two components with tables of their own for DC, and one MCU of zeros. */
  const TwoComponents := Layout([Comp(0, 0), Comp(1, 0)], [0, 1], 0)

  lemma {:induction false} ZeroBlockEmits(comp: Comp)
    ensures InRange(ZeroBlock, 0)
    ensures BlockEmits(ZeroBlock, 0, comp) == [Emit(false, comp.dcTbl, 0, 0, 0), Emit(true, comp.acTbl, 0, 0, 0)]
  {
    ZeroBits();
    var q := AcNext(ZeroBlock, comp.acTbl, 1);
    hide AcEmits, NBits;
  }

  lemma {:induction false} ZeroScan(mcu: seq<Block>)
    requires mcu == [ZeroBlock, ZeroBlock]
    ensures ValidLayout(TwoComponents) && ValidMcus(TwoComponents, [mcu]) && ScanInRange(TwoComponents, Start(TwoComponents), [mcu])
    ensures Segments(TwoComponents, Start(TwoComponents), [mcu])
         == [[Emit(false, 0, 0, 0, 0), Emit(true, 0, 0, 0, 0), Emit(false, 1, 0, 0, 0), Emit(true, 0, 0, 0, 0)]]
  {
    var layout, st := TwoComponents, Start(TwoComponents);
    ZeroBlockEmits(layout.comps[0]);
    ZeroBlockEmits(layout.comps[1]);
    hide BlockEmits, InRange;
    var last := st.last;
    var last1 := last[0 := mcu[0][0]];
    assert last1[1] == 0;
    assert McuEmits(layout, last1[1 := mcu[1][0]], mcu, 2) == [];
    assert McuEmits(layout, last1, mcu, 1) == BlockEmits(mcu[1], 0, layout.comps[1]) + [];
    assert McuEmits(layout, last, mcu, 0) == BlockEmits(mcu[0], 0, layout.comps[0]) + McuEmits(layout, last1, mcu, 1);
    assert McuInRange(layout, last1[1 := mcu[1][0]], mcu, 2) && McuInRange(layout, last1, mcu, 1) && McuInRange(layout, last, mcu, 0);
    var next := st.(last := McuLast(layout, st.last, mcu, 0));
    assert [mcu][1..] == [];
    assert Restarted(layout, st) == st && !Restarts(layout, st);
    SegmentsStep(layout, st, [mcu]);
    SegmentsDone(layout, next, [], McuEmits(layout, last, mcu, 0));
    ScanDone(layout, next, []);
    var emits := McuEmits(layout, last, mcu, 0);
    assert emits == [Emit(false, 0, 0, 0, 0), Emit(true, 0, 0, 0, 0), Emit(false, 1, 0, 0, 0), Emit(true, 0, 0, 0, 0)];
    assert [] + [emits] == [emits];
  }

  /** The limit of the final flush is real: with tables every JPEG decoder accepts, a scan of
      two zero blocks leaves 63 bits in the buffer, and the first of them is a one. So what
      the 64-bit writer makes of it is not what the other one does. */
  method ScanLosesBits() returns (codes: Codes, puts: seq<seq<Put>>, lazy: seq<Byte>, eager: seq<Byte>)
    ensures ShapedCodes(codes)
    ensures forall c, ac :: 0 <= c < 2 ==> SlotDerived(codes, SlotOf(TwoComponents.comps[c], ac))
    ensures ValidLayout(TwoComponents) && ValidMcus(TwoComponents, [[ZeroBlock, ZeroBlock]])
    ensures AllPuts(codes, Segments(TwoComponents, Start(TwoComponents), [[ZeroBlock, ZeroBlock]]), puts)
    ensures |puts| == 1 && (forall j :: 0 <= j < |puts[0]| ==> ValidPut(puts[0][j])) && !NothingLost(puts[0])
    ensures Packs(eager, BitsPut(puts[0])) && lazy != eager
  {
    hide NothingLost, Packs, SlotDerived, Derived, Legal, WellShaped, BitsPut, AllPuts;
    var co1, si1, bits1, val1 := LongTable();
    var co2, si2, bits2, val2 := ZeroTable(15, true);
    var co3, si3, bits3, val3 := ZeroTable(LONGEST, false);
    codes := Codes([co1, co2, co2, co2, co3, co3, co3, co3], [si1, si2, si2, si2, si3, si3, si3, si3],
                   [bits1, bits2, bits2, bits2, bits3, bits3, bits3, bits3], [val1, val2, val2, val2, val3, val3, val3, val3]);
    TablesDerived(codes);
    ZeroScan([ZeroBlock, ZeroBlock]);
    puts := OutputScan(TwoComponents, codes, [[ZeroBlock, ZeroBlock]]);
    FourPuts(codes, puts);
    FlushLosesBits(puts[0]);
    lazy, eager := WritersAgree(puts[0]);
  }

  lemma {:induction false} TablesDerived(codes: Codes)
    requires ShapedCodes(codes)
    requires forall t :: t == 0 || t == 1 || t == 4 ==>
               && WellShaped(codes.bits[t], codes.huffval[t]) && Legal(codes.bits[t], codes.huffval[t], if t < TABLES then 15 else 255)
               && Derived(codes.bits[t], codes.huffval[t], codes.code[t], codes.size[t])
    ensures forall c, ac :: 0 <= c < 2 ==> SlotDerived(codes, SlotOf(TwoComponents.comps[c], ac))
  {
    hide Derived, Legal, WellShaped;
  }

  /** What is put for the scan. */
  lemma {:induction false} FourPuts(codes: Codes, puts: seq<seq<Put>>)
    requires ShapedCodes(codes) && ValidLayout(TwoComponents) && ValidMcus(TwoComponents, [[ZeroBlock, ZeroBlock]])
    requires AllPuts(codes, Segments(TwoComponents, Start(TwoComponents), [[ZeroBlock, ZeroBlock]]), puts)
    requires codes.code[0][0] == 0x8000 && codes.size[0][0] == 16 && codes.code[1][0] == 0 && codes.size[1][0] == 15
    requires codes.code[4][0] == 0 && codes.size[4][0] == 16
    ensures |puts| == 1 && puts[0] == [Put(0x8000, 16, 0, 0, Apart), Put(0, 16, 0, 0, Alone), Put(0, 15, 0, 0, Apart), Put(0, 16, 0, 0, Alone)]
  {
    ZeroScan([ZeroBlock, ZeroBlock]);
    hide Segments;
    var emits := Segments(TwoComponents, Start(TwoComponents), [[ZeroBlock, ZeroBlock]])[0];
    assert Puts(codes, emits, puts[0]);
  }
}
