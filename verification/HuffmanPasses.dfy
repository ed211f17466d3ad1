/** The two passes of optimal Huffman coding in sequential mode (jchuff.c): counting the
    symbols, and emitting them with the tables built from the counts. */
module HuffmanPasses {
  import opened Shifts
  import opened ProbabilityTable
  import opened BitStrings
  import opened HuffmanTree
  import opened Frequencies
  import opened OptimalTable
  import CodeLengths
  import opened DerivedTable
  import opened HuffmanTables
  import opened BitWriters
  import opened Binarisation
  import EobRuns

  const MAX_COEF_BITS := 10
  const TABLES := 4

  function NBits(x: int): nat {
    EobRuns.BitLength(Abs(x))
  }

  /** A symbol of one of the tables, and the value bits behind it. */
  datatype Emit = Emit(ac: bool, tbl: nat, symbol: nat, value: int, nbits: nat)

  /** What is emitted for a nonzero value: its low bits, or those of its predecessor if it
      is negative. */
  function ValueOf(x: int): int {
    if x < 0 then x - 1 else x
  }

  function ZeroRuns(tbl: nat, r: nat): seq<Emit> {
    if r > 15 then [Emit(true, tbl, 0xF0, 0, 0)] + ZeroRuns(tbl, r - 16) else []
  }

  function AcEmits(block: Block, tbl: nat, k: nat, r: nat): seq<Emit>
    requires k <= 64
    decreases 64 - k
  {
    if k == 64 then if r > 0 then [Emit(true, tbl, 0, 0, 0)] else []
    else if block[k] == 0 then AcEmits(block, tbl, k + 1, r + 1)
    else
      ZeroRuns(tbl, r) + [Emit(true, tbl, 16 * (r % 16) + NBits(block[k]), ValueOf(block[k]), NBits(block[k]))]
      + AcEmits(block, tbl, k + 1, 0)
  }

  datatype Comp = Comp(dcTbl: nat, acTbl: nat)

  function BlockEmits(block: Block, last: int, comp: Comp): seq<Emit> {
    var diff := block[0] - last;
    [Emit(false, comp.dcTbl, NBits(diff), ValueOf(diff), NBits(diff))] + AcEmits(block, comp.acTbl, 1, 0)
  }

  /** The counting pass accepts a block only if its magnitudes are in range. */
  predicate InRange(block: Block, last: int) {
    NBits(block[0] - last) <= MAX_COEF_BITS + 1 && forall k :: 1 <= k < 64 ==> NBits(block[k]) <= MAX_COEF_BITS
  }

  // ----- MCUs and restart intervals

  datatype Layout = Layout(comps: seq<Comp>, membership: seq<nat>, restartInterval: nat)

  predicate ValidLayout(layout: Layout) {
    && (forall c :: 0 <= c < |layout.comps| ==> layout.comps[c].dcTbl < TABLES && layout.comps[c].acTbl < TABLES)
    && forall b :: 0 <= b < |layout.membership| ==> layout.membership[b] < |layout.comps|
  }

  /** DC predictions, and MCUs left in the restart interval. */
  datatype Progress = Progress(last: seq<int>, toGo: nat)

  predicate ValidProgress(layout: Layout, st: Progress) {
    |st.last| == |layout.comps|
  }

  function Start(layout: Layout): Progress {
    Progress(seq(|layout.comps|, _ => 0), layout.restartInterval)
  }

  /** A new restart interval begins before this MCU. */
  predicate Restarts(layout: Layout, st: Progress) {
    layout.restartInterval > 0 && st.toGo == 0
  }

  function Restarted(layout: Layout, st: Progress): (r: Progress)
    requires ValidProgress(layout, st)
    ensures ValidProgress(layout, r)
  {
    if layout.restartInterval == 0 then st
    else if st.toGo == 0 then Progress(seq(|layout.comps|, _ => 0), layout.restartInterval - 1)
    else st.(toGo := st.toGo - 1)
  }

  function McuEmits(layout: Layout, last: seq<int>, mcu: seq<Block>, b: nat): seq<Emit>
    requires ValidLayout(layout) && |last| == |layout.comps| && |mcu| == |layout.membership| && b <= |mcu|
    decreases |mcu| - b
  {
    if b == |mcu| then []
    else
      var c := layout.membership[b];
      BlockEmits(mcu[b], last[c], layout.comps[c]) + McuEmits(layout, last[c := mcu[b][0]], mcu, b + 1)
  }

  function McuLast(layout: Layout, last: seq<int>, mcu: seq<Block>, b: nat): (r: seq<int>)
    requires ValidLayout(layout) && |last| == |layout.comps| && |mcu| == |layout.membership| && b <= |mcu|
    ensures |r| == |last|
    decreases |mcu| - b
  {
    if b == |mcu| then last else McuLast(layout, last[layout.membership[b] := mcu[b][0]], mcu, b + 1)
  }

  predicate McuInRange(layout: Layout, last: seq<int>, mcu: seq<Block>, b: nat)
    requires ValidLayout(layout) && |last| == |layout.comps| && |mcu| == |layout.membership| && b <= |mcu|
    decreases |mcu| - b
  {
    b < |mcu| ==>
      && InRange(mcu[b], last[layout.membership[b]])
      && McuInRange(layout, last[layout.membership[b] := mcu[b][0]], mcu, b + 1)
  }

  predicate ValidMcus(layout: Layout, mcus: seq<seq<Block>>) {
    forall m :: 0 <= m < |mcus| ==> |mcus[m]| == |layout.membership|
  }

  /** All symbols of a scan, in order. */
  function ScanEmits(layout: Layout, st: Progress, mcus: seq<seq<Block>>): seq<Emit>
    requires ValidLayout(layout) && ValidProgress(layout, st) && ValidMcus(layout, mcus)
    decreases |mcus|
  {
    if mcus == [] then []
    else
      var now := Restarted(layout, st);
      McuEmits(layout, now.last, mcus[0], 0)
      + ScanEmits(layout, now.(last := McuLast(layout, now.last, mcus[0], 0)), mcus[1..])
  }

  predicate ScanInRange(layout: Layout, st: Progress, mcus: seq<seq<Block>>)
    requires ValidLayout(layout) && ValidProgress(layout, st) && ValidMcus(layout, mcus)
    decreases |mcus|
  {
    mcus != [] ==>
      var now := Restarted(layout, st);
      && McuInRange(layout, now.last, mcus[0], 0)
      && ScanInRange(layout, now.(last := McuLast(layout, now.last, mcus[0], 0)), mcus[1..])
  }

  /** The same symbols, cut at the restarts; the first piece continues what came before. */
  function Segments(layout: Layout, st: Progress, mcus: seq<seq<Block>>): (segments: seq<seq<Emit>>)
    requires ValidLayout(layout) && ValidProgress(layout, st) && ValidMcus(layout, mcus)
    ensures segments != []
    decreases |mcus|
  {
    if mcus == [] then [[]]
    else
      var now := Restarted(layout, st);
      var onward := Segments(layout, now.(last := McuLast(layout, now.last, mcus[0], 0)), mcus[1..]);
      (if Restarts(layout, st) then [[]] else []) + Continued(McuEmits(layout, now.last, mcus[0], 0), onward)
  }

  function Continued(emits: seq<Emit>, onward: seq<seq<Emit>>): (segments: seq<seq<Emit>>)
    requires onward != []
    ensures |segments| == |onward|
  {
    [emits + onward[0]] + onward[1..]
  }

  function Flat(segments: seq<seq<Emit>>): seq<Emit> {
    if segments == [] then [] else segments[0] + Flat(segments[1..])
  }

  lemma {:induction false} SegmentsAreScan(layout: Layout, st: Progress, mcus: seq<seq<Block>>)
    requires ValidLayout(layout) && ValidProgress(layout, st) && ValidMcus(layout, mcus)
    ensures Flat(Segments(layout, st, mcus)) == ScanEmits(layout, st, mcus)
    decreases |mcus|
  {
    hide McuEmits, McuLast;
    if mcus != [] {
      var now := Restarted(layout, st);
      var next := now.(last := McuLast(layout, now.last, mcus[0], 0));
      var emits, onward := McuEmits(layout, now.last, mcus[0], 0), Segments(layout, next, mcus[1..]);
      SegmentsAreScan(layout, next, mcus[1..]);
      assert Continued(emits, onward)[1..] == onward[1..];
      assert emits + onward[0] + Flat(onward[1..]) == emits + (onward[0] + Flat(onward[1..]));
      var all := Segments(layout, st, mcus);
      if Restarts(layout, st) {
        assert all[1..] == Continued(emits, onward) && [] + Flat(all[1..]) == Flat(all[1..]);
      } else {
        assert all == Continued(emits, onward);
      }
    }
  }

  lemma {:induction false} SegmentMember(segments: seq<seq<Emit>>, i: nat, j: nat)
    requires i < |segments| && j < |segments[i]|
    ensures segments[i][j] in Flat(segments)
  {
    if i > 0 {
      SegmentMember(segments[1..], i - 1, j);
    }
  }

  // ----- counting

  function CountOf(emits: seq<Emit>, ac: bool, tbl: nat, symbol: nat): nat {
    if emits == [] then 0
    else
      var n := |emits| - 1;
      CountOf(emits[..n], ac, tbl, symbol) + if emits[n].ac == ac && emits[n].tbl == tbl && emits[n].symbol == symbol then 1 else 0
  }

  lemma {:induction false} CountAppend(emits: seq<Emit>, e: Emit)
    ensures forall ac, tbl, symbol :: CountOf(emits + [e], ac, tbl, symbol)
              == CountOf(emits, ac, tbl, symbol) + if e.ac == ac && e.tbl == tbl && e.symbol == symbol then 1 else 0
  {
    var all := emits + [e];
    assert all[..|all| - 1] == emits;
  }

  function Slot(ac: bool, tbl: nat): nat {
    if ac then TABLES + tbl else tbl
  }

  /** For each DC and each AC table, how often each symbol occurs. */
  ghost predicate CountsOf(counts: seq<seq<int>>, emits: seq<Emit>) {
    && |counts| == 2 * TABLES
    && (forall t :: 0 <= t < |counts| ==> |counts[t]| == SYMBOLS && Nonnegative(counts[t]) && Sum(counts[t][..PSEUDO]) <= |emits|)
    && forall ac, tbl, s :: 0 <= tbl < TABLES && 0 <= s < PSEUDO ==> counts[Slot(ac, tbl)][s] == CountOf(emits, ac, tbl, s)
  }

  class GatherPass {
    const layout: Layout
    var lastDcVal: seq<int>
    var restartsToGo: nat
    var counts: seq<seq<int>>        // 257 counts for each DC and each AC table
    ghost var trace: seq<Emit>

    ghost predicate Counted()
      reads this
    {
      CountsOf(counts, trace)
    }

    ghost predicate Valid()
      reads this
    {
      ValidLayout(layout) && |lastDcVal| == |layout.comps| && Counted()
    }

    constructor (layout: Layout)
      requires ValidLayout(layout)
      ensures Valid() && this.layout == layout && trace == [] && lastDcVal == Start(layout).last && restartsToGo == Start(layout).toGo
    {
      this.layout := layout;
      lastDcVal, restartsToGo := seq(|layout.comps|, _ => 0), layout.restartInterval;
      counts, trace := seq(2 * TABLES, _ => seq(SYMBOLS, _ => 0)), [];
      new;
      SumZero(seq(PSEUDO, _ => 0));
      assert forall t :: 0 <= t < |counts| ==> counts[t][..PSEUDO] == seq(PSEUDO, _ => 0);
      hide Sum;
    }

    method CountSymbol(ac: bool, tbl: nat, s: nat, ghost e: Emit)
      requires Counted() && tbl < TABLES && s < PSEUDO && e.ac == ac && e.tbl == tbl && e.symbol == s
      modifies `counts, `trace
      ensures Counted() && trace == old(trace) + [e]
    {
      hide CountOf, Sum;
      CountAppend(trace, e);
      var t := Slot(ac, tbl);
      OneMore(counts[t], s);
      counts := counts[t := counts[t][s := counts[t][s] + 1]];
      trace := trace + [e];
    }

    /** How often a number can be halved. */
    method CountBits(v: nat) returns (nbits: nat)
      ensures nbits == EobRuns.BitLength(v)
    {
      nbits := 0;
      var temp := v;
      while temp != 0
        invariant nbits + EobRuns.BitLength(temp) == EobRuns.BitLength(v)
      {
        nbits := nbits + 1;
        temp := temp / 2;
      }
    }

    method CountZrls(tbl: nat, r0: nat) returns (r: nat)
      requires Counted() && tbl < TABLES
      modifies `counts, `trace
      ensures Counted() && r == r0 % 16 && trace == old(trace) + ZeroRuns(tbl, r0)
    {
      hide CountOf;
      r := r0;
      ghost var sent := [];
      while r > 15
        invariant Counted() && r % 16 == r0 % 16 && trace == old(trace) + sent && sent + ZeroRuns(tbl, r) == ZeroRuns(tbl, r0)
      {
        CountSymbol(true, tbl, 0xF0, Emit(true, tbl, 0xF0, 0, 0));
        sent := sent + [Emit(true, tbl, 0xF0, 0, 0)];
        r := r - 16;
      }
    }

    method HtestOneBlock(block: Block, last: int, comp: Comp) returns (ok: bool)
      requires Counted() && comp.dcTbl < TABLES && comp.acTbl < TABLES
      modifies `counts, `trace
      ensures Counted() && (ok <==> InRange(block, last))
      ensures ok ==> trace == old(trace) + BlockEmits(block, last, comp)
    {
      hide CountOf, AcEmits, ZeroRuns, EobRuns.BitLength;
      var diff := block[0] - last;
      var nbits := CountBits(Abs(diff));
      if nbits > MAX_COEF_BITS + 1 {
        return false;
      }
      ghost var dc := Emit(false, comp.dcTbl, nbits, ValueOf(diff), nbits);
      CountSymbol(false, comp.dcTbl, nbits, dc);
      ghost var sent := [dc];
      var r := 0;
      for k := 1 to 64
        invariant Counted() && trace == old(trace) + sent
        invariant sent + AcEmits(block, comp.acTbl, k, r) == BlockEmits(block, last, comp)
        invariant forall i :: 1 <= i < k ==> NBits(block[i]) <= MAX_COEF_BITS
      {
        AcEmitsStep(block, comp.acTbl, k, r);
        if block[k] == 0 {
          ZeroBits();
          r := r + 1;
        } else {
          nbits := CountBits(Abs(block[k]));
          if nbits > MAX_COEF_BITS {
            return false;
          }
          ghost var e := Emit(true, comp.acTbl, 16 * (r % 16) + nbits, ValueOf(block[k]), nbits);
          ghost var more := ZeroRuns(comp.acTbl, r) + [e];
          r := CountZrls(comp.acTbl, r);
          CountSymbol(true, comp.acTbl, 16 * r + nbits, e);
          Regrouped(sent, more, AcEmits(block, comp.acTbl, k + 1, 0));
          sent := sent + more;
          r := 0;
        }
      }
      AcEmitsEnd(block, comp.acTbl, r);
      if r > 0 {
        CountSymbol(true, comp.acTbl, 0, Emit(true, comp.acTbl, 0, 0, 0));
      }
      ok := true;
    }

    ghost function Now(): Progress
      reads this
    {
      Progress(lastDcVal, restartsToGo)
    }

    /** One MCU of the counting pass. */
    method EncodeMcuGather(mcu: seq<Block>) returns (ok: bool)
      requires Valid() && |mcu| == |layout.membership|
      modifies this
      ensures Valid()
      ensures var now := Restarted(layout, old(Now()));
              && (ok <==> McuInRange(layout, now.last, mcu, 0))
              && (ok ==> trace == old(trace) + McuEmits(layout, now.last, mcu, 0)
                         && Now() == now.(last := McuLast(layout, now.last, mcu, 0)))
    {
      hide CountOf, Sum, BlockEmits, InRange;
      if layout.restartInterval != 0 {
        if restartsToGo == 0 {
          lastDcVal := seq(|layout.comps|, _ => 0);
          restartsToGo := layout.restartInterval;
        }
        restartsToGo := restartsToGo - 1;
      }
      ghost var now := Restarted(layout, old(Now()));
      ghost var sent := [];
      for b := 0 to |mcu|
        invariant Valid() && trace == old(trace) + sent && restartsToGo == now.toGo
        invariant sent + McuEmits(layout, lastDcVal, mcu, b) == McuEmits(layout, now.last, mcu, 0)
        invariant McuLast(layout, lastDcVal, mcu, b) == McuLast(layout, now.last, mcu, 0)
        invariant McuInRange(layout, lastDcVal, mcu, b) <==> McuInRange(layout, now.last, mcu, 0)
      {
        var c := layout.membership[b];
        ghost var more := BlockEmits(mcu[b], lastDcVal[c], layout.comps[c]);
        ok := HtestOneBlock(mcu[b], lastDcVal[c], layout.comps[c]);
        if !ok {
          return;
        }
        lastDcVal := lastDcVal[c := mcu[b][0]];
        assert sent + (more + McuEmits(layout, lastDcVal, mcu, b + 1)) == sent + more + McuEmits(layout, lastDcVal, mcu, b + 1);
        sent := sent + more;
      }
      ok := true;
    }
  }

  lemma {:induction false} OneMore(counts: seq<int>, s: nat)
    requires |counts| == SYMBOLS && s < PSEUDO
    ensures Sum(counts[s := counts[s] + 1][..PSEUDO]) == Sum(counts[..PSEUDO]) + 1
  {
    SumUpdate(counts[..PSEUDO], s, counts[s] + 1);
    assert counts[s := counts[s] + 1][..PSEUDO] == counts[..PSEUDO][s := counts[s] + 1];
  }

  // ----- output

  /** For each DC and each AC table the codes and their sizes, and what they derive from:
      how many codes there are of each length, and the symbols in order. */
  datatype Codes = Codes(code: seq<seq<nat>>, size: seq<seq<nat>>, bits: seq<seq<nat>>, huffval: seq<seq<int>>)

  predicate ShapedCodes(codes: Codes) {
    && |codes.code| == |codes.size| == |codes.bits| == |codes.huffval| == 2 * TABLES
    && forall t :: 0 <= t < 2 * TABLES ==> |codes.code[t]| == |codes.size[t]| == PSEUDO
  }

  predicate Emittable(e: Emit) {
    e.tbl < TABLES && e.symbol < PSEUDO
  }

  /** The arguments of the bit writer. */
  function PutOf(codes: Codes, e: Emit): Put
    requires ShapedCodes(codes) && Emittable(e)
  {
    var t := Slot(e.ac, e.tbl);
    Put(codes.code[t][e.symbol], codes.size[t][e.symbol], e.value, e.nbits, if !e.ac then Apart else if e.nbits > 0 then Together else Alone)
  }

  /** What is put for these symbols. */
  ghost predicate Puts(codes: Codes, emits: seq<Emit>, puts: seq<Put>) {
    && ShapedCodes(codes) && |puts| == |emits|
    && forall i :: 0 <= i < |puts| ==> Emittable(emits[i]) && puts[i] == PutOf(codes, emits[i])
  }

  ghost predicate AllPuts(codes: Codes, segments: seq<seq<Emit>>, puts: seq<seq<Put>>) {
    |puts| == |segments| && forall i :: 0 <= i < |puts| ==> Puts(codes, segments[i], puts[i])
  }

  class OutputPass {
    const layout: Layout
    const codes: Codes
    var lastDcVal: seq<int>
    var restartsToGo: nat
    var nextRestartNum: nat
    var finished: seq<seq<Put>>      // the segments before the last restart marker
    var puts: seq<Put>               // the open segment
    ghost var sent: seq<seq<Emit>>
    ghost var trace: seq<Emit>

    ghost predicate Valid()
      reads this
    {
      && ValidLayout(layout) && ShapedCodes(codes) && |lastDcVal| == |layout.comps|
      && nextRestartNum == |finished| % 8
      && Puts(codes, trace, puts) && AllPuts(codes, sent, finished)
    }

    ghost function Now(): Progress
      reads this
    {
      Progress(lastDcVal, restartsToGo)
    }

    constructor (layout: Layout, codes: Codes)
      requires ValidLayout(layout) && ShapedCodes(codes)
      ensures Valid() && this.layout == layout && this.codes == codes && sent == [] && trace == [] && Now() == Start(layout)
    {
      this.layout, this.codes := layout, codes;
      lastDcVal, restartsToGo, nextRestartNum := seq(|layout.comps|, _ => 0), layout.restartInterval, 0;
      finished, puts, sent, trace := [], [], [], [];
    }

    method EmitCode(ac: bool, tbl: nat, symbol: nat, value: int, nbits: nat)
      requires Valid() && tbl < TABLES && symbol < PSEUDO
      modifies `puts, `trace
      ensures Valid() && trace == old(trace) + [Emit(ac, tbl, symbol, value, nbits)]
    {
      var t := if ac then TABLES + tbl else tbl;
      var how := if !ac then Apart else if nbits > 0 then Together else Alone;
      puts := puts + [Put(codes.code[t][symbol], codes.size[t][symbol], value, nbits, how)];
      trace := trace + [Emit(ac, tbl, symbol, value, nbits)];
    }

    method EmitZrls(tbl: nat, r0: nat) returns (r: nat)
      requires Valid() && tbl < TABLES
      modifies `puts, `trace
      ensures Valid() && r == r0 % 16 && trace == old(trace) + ZeroRuns(tbl, r0)
    {
      hide PutOf;
      r := r0;
      ghost var sent := [];
      while r > 15
        invariant Valid() && r % 16 == r0 % 16 && trace == old(trace) + sent && sent + ZeroRuns(tbl, r) == ZeroRuns(tbl, r0)
      {
        EmitCode(true, tbl, 0xF0, 0, 0);
        sent := sent + [Emit(true, tbl, 0xF0, 0, 0)];
        r := r - 16;
      }
    }

    method EncodeOneBlock(block: Block, last: int, comp: Comp)
      requires Valid() && comp.dcTbl < TABLES && comp.acTbl < TABLES && InRange(block, last)
      modifies `puts, `trace
      ensures Valid() && trace == old(trace) + BlockEmits(block, last, comp)
    {
      hide AcEmits, ZeroRuns, EobRuns.BitLength, PutOf, Valid, InRange;
      CoefInRange(block, last, 0);
      var temp := block[0] - last;
      var temp2 := if temp < 0 then temp - 1 else temp;
      var nbits := EobRuns.BitLength(Abs(temp));
      EmitCode(false, comp.dcTbl, nbits, temp2, nbits);
      ghost var sent := [Emit(false, comp.dcTbl, nbits, temp2, nbits)];
      var r := 0;
      for k := 1 to 64
        invariant Valid() && trace == old(trace) + sent
        invariant sent + AcEmits(block, comp.acTbl, k, r) == BlockEmits(block, last, comp)
      {
        AcEmitsStep(block, comp.acTbl, k, r);
        temp := block[k];
        if temp == 0 {
          r := r + 1;
        } else {
          temp2 := if temp < 0 then temp - 1 else temp;
          nbits := EobRuns.BitLength(Abs(temp));
          ghost var more := ZeroRuns(comp.acTbl, r) + [Emit(true, comp.acTbl, 16 * (r % 16) + nbits, temp2, nbits)];
          CoefInRange(block, last, k);
          r := EmitZrls(comp.acTbl, r);
          EmitCode(true, comp.acTbl, 16 * r + nbits, temp2, nbits);
          Regrouped(sent, more, AcEmits(block, comp.acTbl, k + 1, 0));
          sent := sent + more;
          r := 0;
        }
      }
      AcEmitsEnd(block, comp.acTbl, r);
      if r > 0 {
        EmitCode(true, comp.acTbl, 0, 0, 0);
      }
    }

    /** Between segments: the marker itself, and predictions start again. */
    method EmitRestart()
      requires Valid()
      modifies `finished, `puts, `sent, `trace, `lastDcVal, `nextRestartNum
      ensures Valid() && lastDcVal == Start(layout).last
      ensures sent == old(sent) + [old(trace)] && trace == []
    {
      hide PutOf;
      finished, sent := finished + [puts], sent + [trace];
      puts, trace := [], [];
      lastDcVal := seq(|layout.comps|, _ => 0);
      nextRestartNum := (nextRestartNum + 1) % 8;
    }

    method EncodeBlocks(mcu: seq<Block>)
      requires Valid() && |mcu| == |layout.membership| && McuInRange(layout, lastDcVal, mcu, 0)
      modifies `puts, `trace, `lastDcVal
      ensures Valid() && trace == old(trace) + McuEmits(layout, old(lastDcVal), mcu, 0)
      ensures lastDcVal == McuLast(layout, old(lastDcVal), mcu, 0)
    {
      hide BlockEmits, InRange, PutOf, AllPuts, Puts;
      ghost var emitted := [];
      for b := 0 to |mcu|
        invariant Valid() && trace == old(trace) + emitted
        invariant emitted + McuEmits(layout, lastDcVal, mcu, b) == McuEmits(layout, old(lastDcVal), mcu, 0)
        invariant McuLast(layout, lastDcVal, mcu, b) == McuLast(layout, old(lastDcVal), mcu, 0)
        invariant McuInRange(layout, lastDcVal, mcu, b)
      {
        var c := layout.membership[b];
        ghost var more := BlockEmits(mcu[b], lastDcVal[c], layout.comps[c]);
        EncodeOneBlock(mcu[b], lastDcVal[c], layout.comps[c]);
        lastDcVal := lastDcVal[c := mcu[b][0]];
        assert emitted + (more + McuEmits(layout, lastDcVal, mcu, b + 1)) == emitted + more + McuEmits(layout, lastDcVal, mcu, b + 1);
        emitted := emitted + more;
      }
    }

    /** One MCU of the output pass. */
    method EncodeMcuHuff(mcu: seq<Block>)
      requires Valid() && |mcu| == |layout.membership| && McuInRange(layout, Restarted(layout, Now()).last, mcu, 0)
      modifies this
      ensures Valid()
      ensures var now := Restarted(layout, old(Now()));
              && trace == (if Restarts(layout, old(Now())) then [] else old(trace)) + McuEmits(layout, now.last, mcu, 0)
              && sent == (if Restarts(layout, old(Now())) then old(sent) + [old(trace)] else old(sent))
              && Now() == now.(last := McuLast(layout, now.last, mcu, 0))
    {
      hide Puts, AllPuts, McuEmits, McuLast, McuInRange;
      if layout.restartInterval != 0 && restartsToGo == 0 {
        EmitRestart();
      }
      EncodeBlocks(mcu);
      if layout.restartInterval != 0 {
        if restartsToGo == 0 {
          restartsToGo := layout.restartInterval;
        }
        restartsToGo := restartsToGo - 1;
      }
    }
  }

  lemma {:induction false} CoefInRange(block: Block, last: int, k: nat)
    requires InRange(block, last) && k < 64
    ensures k == 0 ==> NBits(block[0] - last) <= MAX_COEF_BITS + 1
    ensures k > 0 ==> NBits(block[k]) <= MAX_COEF_BITS
  {
  }

  lemma {:induction false} Regrouped(a: seq<Emit>, b: seq<Emit>, c: seq<Emit>)
    ensures a + (b + c) == a + b + c
  {
  }

  lemma {:induction false} AcEmitsStep(block: Block, tbl: nat, k: nat, r: nat)
    requires k < 64
    ensures AcEmits(block, tbl, k, r)
         == if block[k] == 0 then AcEmits(block, tbl, k + 1, r + 1)
            else ZeroRuns(tbl, r) + [Emit(true, tbl, 16 * (r % 16) + NBits(block[k]), ValueOf(block[k]), NBits(block[k]))]
                 + AcEmits(block, tbl, k + 1, 0)
  {
  }

  lemma {:induction false} AcEmitsEnd(block: Block, tbl: nat, r: nat)
    ensures AcEmits(block, tbl, 64, r) == if r > 0 then [Emit(true, tbl, 0, 0, 0)] else []
  {
  }

  lemma {:induction false} ZeroBits()
    ensures NBits(0) == 0
  {
  }

  // ----- which symbols there are

  const LARGEST_SYMBOL := 250

  /** Emitted with tables of the scan's components, and below the largest symbol; the low
      half of a symbol says how many value bits follow. */
  predicate Expected(layout: Layout, e: Emit) {
    && e.symbol <= (if e.ac then LARGEST_SYMBOL else 15) && e.nbits == e.symbol % 16
    && e.nbits <= (if e.ac then MAX_COEF_BITS else MAX_COEF_BITS + 1)
    && exists c :: 0 <= c < |layout.comps| && e.tbl == if e.ac then layout.comps[c].acTbl else layout.comps[c].dcTbl
  }

  predicate AllExpected(layout: Layout, emits: seq<Emit>) {
    forall i :: 0 <= i < |emits| ==> Expected(layout, emits[i])
  }

  /** Emitted with one AC table. */
  predicate AllAc(emits: seq<Emit>, tbl: nat) {
    forall i :: 0 <= i < |emits| ==> emits[i].ac && emits[i].tbl == tbl
  }

  lemma {:induction false} ZeroRunsExpected(layout: Layout, c: nat, r: nat)
    requires c < |layout.comps|
    ensures AllExpected(layout, ZeroRuns(layout.comps[c].acTbl, r)) && AllAc(ZeroRuns(layout.comps[c].acTbl, r), layout.comps[c].acTbl)
  {
    if r > 15 {
      ZeroRunsExpected(layout, c, r - 16);
      assert Expected(layout, Emit(true, layout.comps[c].acTbl, 0xF0, 0, 0));
    }
  }

  lemma {:induction false} AcExpected(layout: Layout, c: nat, block: Block, k: nat, r: nat)
    requires c < |layout.comps| && k <= 64 && forall i :: k <= i < 64 ==> NBits(block[i]) <= MAX_COEF_BITS
    ensures AllExpected(layout, AcEmits(block, layout.comps[c].acTbl, k, r))
    ensures k < 64 || r > 0 ==> AcEmits(block, layout.comps[c].acTbl, k, r) != []
    ensures AllAc(AcEmits(block, layout.comps[c].acTbl, k, r), layout.comps[c].acTbl)
    decreases 64 - k
  {
    hide EobRuns.BitLength, ZeroRuns, AcEmits, Expected, AllExpected, AllAc;
    var tbl := layout.comps[c].acTbl;
    if k == 64 {
      AcEmitsEnd(block, tbl, r);
      OneExpected(layout, c, Emit(true, tbl, 0, 0, 0));
      NoneExpected(layout, tbl);
    } else {
      AcEmitsStep(block, tbl, k, r);
      if block[k] == 0 {
        AcExpected(layout, c, block, k + 1, r + 1);
      } else {
        var e := Emit(true, tbl, 16 * (r % 16) + NBits(block[k]), ValueOf(block[k]), NBits(block[k]));
        AcExpected(layout, c, block, k + 1, 0);
        ZeroRunsExpected(layout, c, r);
        OneExpected(layout, c, e);
        ExpectedConcat(layout, tbl, ZeroRuns(tbl, r), [e]);
        ExpectedConcat(layout, tbl, ZeroRuns(tbl, r) + [e], AcEmits(block, tbl, k + 1, 0));
      }
    }
  }

  lemma {:induction false} NoneExpected(layout: Layout, tbl: nat)
    ensures AllExpected(layout, []) && AllAc([], tbl)
  {
  }

  lemma {:induction false} OneExpected(layout: Layout, c: nat, e: Emit)
    requires c < |layout.comps| && e.ac && e.tbl == layout.comps[c].acTbl && e.symbol <= LARGEST_SYMBOL && e.nbits == e.symbol % 16
    requires e.nbits <= MAX_COEF_BITS
    ensures AllExpected(layout, [e]) && AllAc([e], e.tbl)
  {
    assert Expected(layout, e);
  }

  lemma {:induction false} ExpectedConcat(layout: Layout, tbl: nat, a: seq<Emit>, b: seq<Emit>)
    requires AllExpected(layout, a) && AllExpected(layout, b)
    ensures AllExpected(layout, a + b)
    ensures AllAc(a, tbl) && AllAc(b, tbl) ==> AllAc(a + b, tbl)
  {
    hide Expected;
  }

  /** Some symbol of this table is among them. */
  predicate Uses(emits: seq<Emit>, ac: bool, tbl: nat) {
    exists i :: 0 <= i < |emits| && emits[i].ac == ac && emits[i].tbl == tbl
  }

  lemma {:induction false} BlockExpected(layout: Layout, c: nat, block: Block, last: int)
    requires c < |layout.comps| && InRange(block, last)
    ensures AllExpected(layout, BlockEmits(block, last, layout.comps[c]))
    ensures Uses(BlockEmits(block, last, layout.comps[c]), false, layout.comps[c].dcTbl)
    ensures Uses(BlockEmits(block, last, layout.comps[c]), true, layout.comps[c].acTbl)
  {
    hide EobRuns.BitLength, AcEmits;
    AcExpected(layout, c, block, 1, 0);
    var all := BlockEmits(block, last, layout.comps[c]);
    assert Expected(layout, all[0]);
    assert all[0].tbl == layout.comps[c].dcTbl && all[1].tbl == layout.comps[c].acTbl && all[1].ac;
  }

  lemma {:induction false} McuExpected(layout: Layout, last: seq<int>, mcu: seq<Block>, b: nat)
    requires ValidLayout(layout) && |last| == |layout.comps| && |mcu| == |layout.membership| && b <= |mcu|
    requires McuInRange(layout, last, mcu, b)
    ensures AllExpected(layout, McuEmits(layout, last, mcu, b))
    ensures forall i :: b <= i < |mcu| ==>
              && Uses(McuEmits(layout, last, mcu, b), false, layout.comps[layout.membership[i]].dcTbl)
              && Uses(McuEmits(layout, last, mcu, b), true, layout.comps[layout.membership[i]].acTbl)
    decreases |mcu| - b
  {
    hide BlockEmits, InRange, Expected;
    if b < |mcu| {
      var c := layout.membership[b];
      var first, rest := BlockEmits(mcu[b], last[c], layout.comps[c]), McuEmits(layout, last[c := mcu[b][0]], mcu, b + 1);
      BlockExpected(layout, c, mcu[b], last[c]);
      McuExpected(layout, last[c := mcu[b][0]], mcu, b + 1);
      UsesConcat(first, rest);
    }
  }

  lemma {:induction false} UsesConcat(a: seq<Emit>, b: seq<Emit>)
    ensures forall ac, tbl :: Uses(a, ac, tbl) || Uses(b, ac, tbl) ==> Uses(a + b, ac, tbl)
  {
    forall ac, tbl | Uses(a, ac, tbl) || Uses(b, ac, tbl)
      ensures Uses(a + b, ac, tbl)
    {
      if Uses(a, ac, tbl) {
        var i :| 0 <= i < |a| && a[i].ac == ac && a[i].tbl == tbl;
        assert (a + b)[i] == a[i];
      } else {
        var i :| 0 <= i < |b| && b[i].ac == ac && b[i].tbl == tbl;
        assert (a + b)[|a| + i] == b[i];
      }
    }
  }

  lemma {:induction false} ScanExpected(layout: Layout, st: Progress, mcus: seq<seq<Block>>)
    requires ValidLayout(layout) && ValidProgress(layout, st) && ValidMcus(layout, mcus) && ScanInRange(layout, st, mcus)
    ensures AllExpected(layout, ScanEmits(layout, st, mcus))
    ensures mcus != [] ==> forall i :: 0 <= i < |layout.membership| ==>
              && Uses(ScanEmits(layout, st, mcus), false, layout.comps[layout.membership[i]].dcTbl)
              && Uses(ScanEmits(layout, st, mcus), true, layout.comps[layout.membership[i]].acTbl)
    decreases |mcus|
  {
    hide McuEmits, McuLast, McuInRange, Expected;
    if mcus != [] {
      var now := Restarted(layout, st);
      var next := now.(last := McuLast(layout, now.last, mcus[0], 0));
      McuExpected(layout, now.last, mcus[0], 0);
      ScanExpected(layout, next, mcus[1..]);
      UsesConcat(McuEmits(layout, now.last, mcus[0], 0), ScanEmits(layout, next, mcus[1..]));
    }
  }

  lemma {:induction false} CountedMember(emits: seq<Emit>, ac: bool, tbl: nat, symbol: nat)
    ensures CountOf(emits, ac, tbl, symbol) > 0 <==>
              exists i :: 0 <= i < |emits| && emits[i].ac == ac && emits[i].tbl == tbl && emits[i].symbol == symbol
  {
    if emits != [] {
      var n := |emits| - 1;
      CountedMember(emits[..n], ac, tbl, symbol);
    }
  }

  // ----- the tables

  /** One table has codes for exactly the symbols counted; no code word begins another. */
  ghost predicate Coded(code: seq<nat>, size: seq<nat>, counts: seq<int>)
    requires |code| == |size| == PSEUDO && |counts| == SYMBOLS
  {
    && (forall s :: 0 <= s < PSEUDO ==> (size[s] > 0 <==> counts[s] != 0))
    && (forall s :: 0 <= s < PSEUDO && size[s] > 0 ==> size[s] <= 16 && code[s] + 1 < Pow2(size[s]))
    && forall s, t :: 0 <= s < PSEUDO && 0 <= t < PSEUDO && size[s] > 0 && size[t] > 0 && s != t ==>
         !(CodeWord(code, size, s) <= CodeWord(code, size, t))
  }

  /** A histogram the table builder accepts, if the table is used at all. */
  lemma {:induction false} CountsAreHistogram(layout: Layout, trace: seq<Emit>, ac: bool, tbl: nat, counts: seq<int>)
    requires AllExpected(layout, trace) && Uses(trace, ac, tbl) && |trace| + 1 <= MAX_FREQ
    requires |counts| == SYMBOLS && Nonnegative(counts) && Sum(counts[..PSEUDO]) <= |trace|
    requires forall s :: 0 <= s < PSEUDO ==> counts[s] == CountOf(trace, ac, tbl, s)
    ensures Histogram(counts)
    ensures !ac ==> forall s :: 16 <= s < PSEUDO ==> counts[s] == 0
  {
    hide Sum, CountOf;
    var i :| 0 <= i < |trace| && trace[i].ac == ac && trace[i].tbl == tbl;
    CountedMember(trace, ac, tbl, trace[i].symbol);
    assert Expected(layout, trace[i]);
    assert trace[i].symbol in Occurring(counts);
    forall s | s in Occurring(counts)
      ensures 0 <= s < LARGEST_SYMBOL + 1 && (!ac ==> s < 16)
    {
      CountedMember(trace, ac, tbl, s);
      var j :| 0 <= j < |trace| && trace[j].ac == ac && trace[j].tbl == tbl && trace[j].symbol == s;
      assert Expected(layout, trace[j]);
    }
    CodeLengths.RangeBounds(LARGEST_SYMBOL + 1, Occurring(counts));
    assert forall s :: 16 <= s < PSEUDO && counts[s] != 0 ==> s in Occurring(counts);
  }

  /** What finishing the counting pass is given. */
  ghost predicate Gathered(layout: Layout, counts: seq<seq<int>>, emits: seq<Emit>) {
    && ValidLayout(layout) && CountsOf(counts, emits) && AllExpected(layout, emits) && |emits| + 1 <= MAX_FREQ
    && forall c :: 0 <= c < |layout.comps| ==>
         Uses(emits, false, layout.comps[c].dcTbl) && Uses(emits, true, layout.comps[c].acTbl)
  }

  /** The tables of all components are there. */
  ghost predicate AllCoded(layout: Layout, codes: Codes, counts: seq<seq<int>>) {
    && ValidLayout(layout) && ShapedCodes(codes) && |counts| == 2 * TABLES
    && (forall t :: 0 <= t < |counts| ==> |counts[t]| == SYMBOLS)
    && forall c, ac :: 0 <= c < |layout.comps| ==> SlotCoded(codes, counts, SlotOf(layout.comps[c], ac))
  }

  function SlotOf(comp: Comp, ac: bool): nat {
    Slot(ac, if ac then comp.acTbl else comp.dcTbl)
  }

  /** The codes derive from a legal table. */
  predicate SlotDerived(codes: Codes, t: nat) {
    && ShapedCodes(codes) && t < 2 * TABLES && WellShaped(codes.bits[t], codes.huffval[t])
    && Legal(codes.bits[t], codes.huffval[t], if t < TABLES then 15 else 255)
    && Derived(codes.bits[t], codes.huffval[t], codes.code[t], codes.size[t])
  }

  ghost predicate SlotCoded(codes: Codes, counts: seq<seq<int>>, t: nat) {
    && ShapedCodes(codes) && t < 2 * TABLES && t < |counts| && |counts[t]| == SYMBOLS
    && Coded(codes.code[t], codes.size[t], counts[t]) && SlotDerived(codes, t) && SlotOptimal(codes, counts, t)
  }

  /** The codes are those of the tree of the counts. */
  ghost predicate SlotOptimal(codes: Codes, counts: seq<seq<int>>, t: nat) {
    && ShapedCodes(codes) && t < 2 * TABLES && t < |counts|
    && exists tree :: OptimalFor(counts[t], tree, codes.size[t], codes.bits[t], codes.huffval[t])
  }

  /** So are all tables of a scan, for how often each symbol occurs in it. */
  ghost predicate OptimalTables(layout: Layout, mcus: seq<seq<Block>>, codes: Codes)
    requires ValidLayout(layout) && ValidMcus(layout, mcus)
  {
    exists counts :: CountsOf(counts, ScanEmits(layout, Start(layout), mcus)) && AllOptimal(layout, codes, counts)
  }

  ghost predicate AllOptimal(layout: Layout, codes: Codes, counts: seq<seq<int>>)
    requires ValidLayout(layout)
  {
    forall c, ac :: 0 <= c < |layout.comps| ==> SlotOptimal(codes, counts, SlotOf(layout.comps[c], ac))
  }

  /** DC and AC tables, and tables of different numbers, are kept apart. */
  lemma {:induction false} SlotsApart(a: Comp, b: Comp, ac: bool, ac2: bool)
    requires a.dcTbl < TABLES && a.acTbl < TABLES && b.dcTbl < TABLES && b.acTbl < TABLES
    ensures SlotOf(a, ac) < 2 * TABLES
    ensures SlotOf(a, ac) == SlotOf(b, ac2) <==> ac == ac2 && if ac then a.acTbl == b.acTbl else a.dcTbl == b.dcTbl
  {
  }

  method BuildTable(counts: seq<int>, isDC: bool)
    returns (ok: bool, code: seq<nat>, size: seq<nat>, bits: seq<nat>, huffval: seq<int>)
    requires Histogram(counts) && (isDC ==> forall s :: 16 <= s < PSEUDO ==> counts[s] == 0)
    ensures Sum(counts[..PSEUDO]) + 1 < 9227465 ==> ok
    ensures ok ==> |code| == |size| == PSEUDO && Coded(code, size, counts)
    ensures ok ==> WellShaped(bits, huffval) && Legal(bits, huffval, if isDC then 15 else 255) && Derived(bits, huffval, code, size)
    ensures ok ==> exists tree :: OptimalFor(counts, tree, size, bits, huffval)
  {
    hide Sum, CodeWord, Legal, Derived, OptimalFor;
    var freq := new int[SYMBOLS](i requires 0 <= i < SYMBOLS => counts[i]);
    assert freq[..] == counts;
    assert freq[..PSEUDO] == counts[..PSEUDO];
    ok, code, size, bits, huffval := OptimalCodes(freq, isDC);
  }

  lemma {:induction false} SlotHistogram(layout: Layout, counts: seq<seq<int>>, emits: seq<Emit>, c: nat, ac: bool)
    requires Gathered(layout, counts, emits) && c < |layout.comps|
    ensures Histogram(counts[SlotOf(layout.comps[c], ac)])
    ensures !ac ==> forall s :: 16 <= s < PSEUDO ==> counts[SlotOf(layout.comps[c], ac)][s] == 0
    ensures Sum(counts[SlotOf(layout.comps[c], ac)][..PSEUDO]) <= |emits|
  {
    hide Sum, CountOf, Expected, Histogram;
    var tbl := if ac then layout.comps[c].acTbl else layout.comps[c].dcTbl;
    CountsAreHistogram(layout, emits, ac, tbl, counts[Slot(ac, tbl)]);
  }

  /** The table of one slot, unless it was built before. */
  method BuildOnce(layout: Layout, counts: seq<seq<int>>, ghost emits: seq<Emit>, c: nat, ac: bool, did0: seq<bool>, codes0: Codes)
      returns (ok: bool, did: seq<bool>, codes: Codes)
    requires Gathered(layout, counts, emits) && c < |layout.comps|
    requires Progressed(codes0, counts, did0)
    ensures |emits| + 1 < 9227465 ==> ok
    ensures ok ==> Progressed(codes, counts, did) && did[SlotOf(layout.comps[c], ac)]
    ensures ok ==> forall t :: 0 <= t < 2 * TABLES && did0[t] ==> did[t]
  {
    hide Coded, CountsOf, AllExpected, Histogram, Sum, Uses, Legal, Derived, OptimalFor;
    did, codes := did0, codes0;
    var t := SlotOf(layout.comps[c], ac);
    if did[t] {
      return true, did, codes;
    }
    SlotHistogram(layout, counts, emits, c, ac);
    var code, size, bits, huffval;
    ok, code, size, bits, huffval := BuildTable(counts[t], !ac);
    if ok {
      codes := Codes(codes.code[t := code], codes.size[t := size], codes.bits[t := bits], codes.huffval[t := huffval]);
      did := did[t := true];
    }
  }

  /** The slots marked as done have their codes. */
  ghost predicate Progressed(codes: Codes, counts: seq<seq<int>>, did: seq<bool>) {
    && ShapedCodes(codes) && |did| == |counts| == 2 * TABLES
    && (forall t :: 0 <= t < |counts| ==> |counts[t]| == SYMBOLS)
    && forall t :: 0 <= t < 2 * TABLES && did[t] ==> SlotCoded(codes, counts, t)
  }

  /** Builds each table once, however many components share it: building clobbers counts. */
  method FinishPassGather(layout: Layout, counts: seq<seq<int>>, ghost emits: seq<Emit>) returns (ok: bool, codes: Codes)
    requires Gathered(layout, counts, emits)
    ensures |emits| + 1 < 9227465 ==> ok
    ensures ok ==> AllCoded(layout, codes, counts)
  {
    hide SlotCoded, AllExpected, Histogram, Sum, Uses, CountOf;
    var none := seq(2 * TABLES, _ => seq(PSEUDO, _ => 0));
    codes := Codes(none, none, none, none);
    var did := seq(2 * TABLES, _ => false);
    for c := 0 to |layout.comps|
      invariant Progressed(codes, counts, did)
      invariant forall i, ac :: 0 <= i < c ==> did[SlotOf(layout.comps[i], ac)]
    {
      ok, did, codes := BuildOnce(layout, counts, emits, c, false, did, codes);
      if !ok {
        return;
      }
      ok, did, codes := BuildOnce(layout, counts, emits, c, true, did, codes);
      if !ok {
        return;
      }
    }
    ok := true;
  }

  // ----- both passes over a scan

  ghost predicate HasBlock(layout: Layout, c: int) {
    exists b :: 0 <= b < |layout.membership| && layout.membership[b] == c
  }

  /** The counting pass over a scan fails exactly on values out of range; it counts the
      symbols of the scan. */
  method GatherScan(layout: Layout, mcus: seq<seq<Block>>) returns (ok: bool, counts: seq<seq<int>>)
    requires ValidLayout(layout) && ValidMcus(layout, mcus)
    ensures ok <==> ScanInRange(layout, Start(layout), mcus)
    ensures ok ==> CountsOf(counts, ScanEmits(layout, Start(layout), mcus))
  {
    hide CountsOf, Restarted, McuInRange, McuEmits, McuLast;
    var pass := new GatherPass(layout);
    counts := [];
    ghost var all := ScanEmits(layout, Start(layout), mcus);
    for m := 0 to |mcus|
      invariant fresh(pass) && pass.layout == layout && pass.Valid()
      invariant pass.trace + ScanEmits(layout, pass.Now(), mcus[m..]) == all
      invariant ScanInRange(layout, pass.Now(), mcus[m..]) <==> ScanInRange(layout, Start(layout), mcus)
    {
      ghost var before, st := pass.trace, pass.Now();
      ScanNext(layout, st, mcus[m..], before);
      assert mcus[m..][1..] == mcus[m + 1..];
      ok := pass.EncodeMcuGather(mcus[m]);
      if !ok {
        return;
      }
    }
    ScanDone(layout, pass.Now(), mcus[|mcus|..]);
    assert pass.trace + [] == pass.trace;
    return true, pass.counts;
  }

  lemma {:induction false} ScanNext(layout: Layout, st: Progress, mcus: seq<seq<Block>>, before: seq<Emit>)
    requires ValidLayout(layout) && ValidProgress(layout, st) && ValidMcus(layout, mcus) && mcus != []
    ensures var now := Restarted(layout, st);
            var next := now.(last := McuLast(layout, now.last, mcus[0], 0));
            && before + ScanEmits(layout, st, mcus) == before + McuEmits(layout, now.last, mcus[0], 0) + ScanEmits(layout, next, mcus[1..])
            && (ScanInRange(layout, st, mcus) <==> McuInRange(layout, now.last, mcus[0], 0) && ScanInRange(layout, next, mcus[1..]))
  {
    hide Restarted, McuLast, McuEmits, McuInRange;
    var now := Restarted(layout, st);
    var next := now.(last := McuLast(layout, now.last, mcus[0], 0));
    assert ScanEmits(layout, st, mcus) == McuEmits(layout, now.last, mcus[0], 0) + ScanEmits(layout, next, mcus[1..]);
  }

  lemma {:induction false} ScanDone(layout: Layout, st: Progress, mcus: seq<seq<Block>>)
    requires ValidLayout(layout) && ValidProgress(layout, st) && mcus == []
    ensures ScanEmits(layout, st, mcus) == [] && ScanInRange(layout, st, mcus)
  {
  }

  /** The output pass over a scan, in segments between restart markers. */
  method OutputScan(layout: Layout, codes: Codes, mcus: seq<seq<Block>>) returns (puts: seq<seq<Put>>)
    requires ValidLayout(layout) && ShapedCodes(codes) && ValidMcus(layout, mcus)
    requires ScanInRange(layout, Start(layout), mcus)
    ensures AllPuts(codes, Segments(layout, Start(layout), mcus), puts)
  {
    hide Puts, Restarted, McuInRange, McuEmits, McuLast, Restarts, Continued, Segments, ScanInRange;
    var pass := new OutputPass(layout, codes);
    ghost var all := Segments(layout, Start(layout), mcus);
    ContinuedTwice([], [], all);
    for m := 0 to |mcus|
      invariant fresh(pass) && pass.layout == layout && pass.codes == codes && pass.Valid()
      invariant pass.sent + Continued(pass.trace, Segments(layout, pass.Now(), mcus[m..])) == all
      invariant ScanInRange(layout, pass.Now(), mcus[m..])
    {
      ghost var sent, trace, st := pass.sent, pass.trace, pass.Now();
      ScanNext(layout, st, mcus[m..], []);
      SegmentsNext(layout, st, mcus[m..], sent, trace);
      assert mcus[m..][1..] == mcus[m + 1..];
      pass.EncodeMcuHuff(mcus[m]);
    }
    SegmentsDone(layout, pass.Now(), mcus[|mcus|..], pass.trace);
    puts := pass.finished + [pass.puts];
  }

  lemma {:induction false} SegmentsStep(layout: Layout, st: Progress, mcus: seq<seq<Block>>)
    requires ValidLayout(layout) && ValidProgress(layout, st) && ValidMcus(layout, mcus) && mcus != []
    ensures var now := Restarted(layout, st);
            var next := now.(last := McuLast(layout, now.last, mcus[0], 0));
            var onward := Continued(McuEmits(layout, now.last, mcus[0], 0), Segments(layout, next, mcus[1..]));
            Segments(layout, st, mcus) == (if Restarts(layout, st) then [[]] else []) + onward
  {
    hide Restarted, McuLast, McuEmits, Restarts, Continued;
  }

  lemma {:induction false} SegmentsNext(layout: Layout, st: Progress, mcus: seq<seq<Block>>, sent: seq<seq<Emit>>, trace: seq<Emit>)
    requires ValidLayout(layout) && ValidProgress(layout, st) && ValidMcus(layout, mcus) && mcus != []
    ensures var now := Restarted(layout, st);
            var next := now.(last := McuLast(layout, now.last, mcus[0], 0));
            Moved(sent, trace, Segments(layout, st, mcus), Restarts(layout, st),
                  McuEmits(layout, now.last, mcus[0], 0), Segments(layout, next, mcus[1..]))
  {
    hide Restarted, McuLast, McuEmits, Restarts, Continued, Segments;
    var now := Restarted(layout, st);
    var next := now.(last := McuLast(layout, now.last, mcus[0], 0));
    SegmentsStep(layout, st, mcus);
    var emits, onward := McuEmits(layout, now.last, mcus[0], 0), Segments(layout, next, mcus[1..]);
    ContinuedTwice(trace, emits, onward);
    if Restarts(layout, st) {
      ContinuedFirst(trace, Continued(emits, onward));
      assert sent + ([trace] + Continued(emits, onward)) == sent + [trace] + Continued(emits, onward);
    } else {
      assert [] + Continued(emits, onward) == Continued(emits, onward);
    }
  }

  /** What an MCU does to the segments. */
  predicate Moved(sent: seq<seq<Emit>>, trace: seq<Emit>, segments: seq<seq<Emit>>, restart: bool, emits: seq<Emit>, onward: seq<seq<Emit>>)
    requires segments != [] && onward != []
  {
    sent + Continued(trace, segments) == if restart then sent + [trace] + Continued([] + emits, onward) else sent + Continued(trace + emits, onward)
  }

  lemma {:induction false} ContinuedTwice(trace: seq<Emit>, emits: seq<Emit>, onward: seq<seq<Emit>>)
    requires onward != []
    ensures Continued(trace, Continued(emits, onward)) == Continued(trace + emits, onward)
    ensures [] + emits == emits && Continued([], onward) == onward
  {
    assert trace + (emits + onward[0]) == (trace + emits) + onward[0];
    assert [] + onward[0] == onward[0];
  }

  lemma {:induction false} ContinuedFirst(trace: seq<Emit>, onward: seq<seq<Emit>>)
    requires onward != []
    ensures Continued(trace, [[]] + onward) == [trace] + onward
  {
    assert trace + [] == trace;
  }

  lemma {:induction false} SegmentsDone(layout: Layout, st: Progress, mcus: seq<seq<Block>>, trace: seq<Emit>)
    requires ValidLayout(layout) && ValidProgress(layout, st) && ValidMcus(layout, mcus) && mcus == []
    ensures Continued(trace, Segments(layout, st, mcus)) == [trace]
  {
    assert Segments(layout, st, mcus) == [[]];
    assert trace + [] == trace;
  }

  lemma {:induction false} TablesOptimal(layout: Layout, mcus: seq<seq<Block>>, codes: Codes, counts: seq<seq<int>>)
    requires ValidLayout(layout) && ValidMcus(layout, mcus) && AllCoded(layout, codes, counts)
    requires CountsOf(counts, ScanEmits(layout, Start(layout), mcus))
    ensures OptimalTables(layout, mcus, codes)
  {
    hide CountsOf, ScanEmits, SlotDerived, SlotOptimal, Coded;
    assert AllOptimal(layout, codes, counts);
  }

  /** Optimal coding of a whole scan: it fails exactly on values out of range, short of
      Fibonacci(35) symbols. Otherwise every symbol put by the second pass has a code word
      of the table built from the first. */
  method EncodeOptimally(layout: Layout, mcus: seq<seq<Block>>) returns (ok: bool, codes: Codes, puts: seq<seq<Put>>)
    requires ValidLayout(layout) && ValidMcus(layout, mcus) && mcus != []
    requires forall c :: 0 <= c < |layout.comps| ==> HasBlock(layout, c)
    requires |ScanEmits(layout, Start(layout), mcus)| + 1 <= MAX_FREQ
    ensures ok ==> ScanInRange(layout, Start(layout), mcus)
    ensures ScanInRange(layout, Start(layout), mcus) && |ScanEmits(layout, Start(layout), mcus)| + 1 < 9227465 ==> ok
    ensures ok ==> AllPuts(codes, Segments(layout, Start(layout), mcus), puts)
    ensures ok ==> forall i, j :: 0 <= i < |puts| && 0 <= j < |puts[i]| ==> ValidPut(puts[i][j])
    ensures ok ==> forall c, ac :: 0 <= c < |layout.comps| ==> SlotDerived(codes, SlotOf(layout.comps[c], ac))
    ensures ok ==> OptimalTables(layout, mcus, codes)
  {
    hide OptimalTables, SlotOptimal, Puts, SlotDerived, Segments, CountsOf, AllCoded, ScanInRange, ScanEmits, Gathered;
    codes, puts := Codes([], [], [], []), [];
    ghost var emits := ScanEmits(layout, Start(layout), mcus);
    var counts;
    ok, counts := GatherScan(layout, mcus);
    if !ok {
      return;
    }
    ReadyToBuild(layout, mcus, counts);
    ok, codes := FinishPassGather(layout, counts, emits);
    if !ok {
      return;
    }
    CodedShape(layout, codes, counts);
    TablesOptimal(layout, mcus, codes, counts);
    puts := OutputScan(layout, codes, mcus);
    SegmentsAreScan(layout, Start(layout), mcus);
    EverySymbolCoded(layout, codes, counts, Segments(layout, Start(layout), mcus), puts);
  }

  lemma {:induction false} CodedShape(layout: Layout, codes: Codes, counts: seq<seq<int>>)
    requires AllCoded(layout, codes, counts)
    ensures ShapedCodes(codes)
    ensures forall c, ac :: 0 <= c < |layout.comps| ==> SlotDerived(codes, SlotOf(layout.comps[c], ac))
  {
    hide Coded, SlotDerived;
    forall c, ac | 0 <= c < |layout.comps|
      ensures SlotDerived(codes, SlotOf(layout.comps[c], ac))
    {
      assert SlotCoded(codes, counts, SlotOf(layout.comps[c], ac));
    }
  }

  lemma {:induction false} ReadyToBuild(layout: Layout, mcus: seq<seq<Block>>, counts: seq<seq<int>>)
    requires ValidLayout(layout) && ValidMcus(layout, mcus) && mcus != []
    requires forall c :: 0 <= c < |layout.comps| ==> HasBlock(layout, c)
    requires |ScanEmits(layout, Start(layout), mcus)| + 1 <= MAX_FREQ
    requires ScanInRange(layout, Start(layout), mcus) && CountsOf(counts, ScanEmits(layout, Start(layout), mcus))
    ensures Gathered(layout, counts, ScanEmits(layout, Start(layout), mcus))
  {
    hide CountsOf, ScanInRange, ScanEmits, Uses, AllExpected;
    ScanExpected(layout, Start(layout), mcus);
    var emits := ScanEmits(layout, Start(layout), mcus);
    forall c | 0 <= c < |layout.comps|
      ensures Uses(emits, false, layout.comps[c].dcTbl) && Uses(emits, true, layout.comps[c].acTbl)
    {
      assert HasBlock(layout, c);
      var i :| 0 <= i < |layout.membership| && layout.membership[i] == c;
      assert Uses(emits, false, layout.comps[layout.membership[i]].dcTbl);
    }
  }

  /** Counting and emitting agree, so every symbol emitted has been counted and coded. */
  lemma {:induction false} EverySymbolCoded(layout: Layout, codes: Codes, counts: seq<seq<int>>, segments: seq<seq<Emit>>, puts: seq<seq<Put>>)
    requires Gathered(layout, counts, Flat(segments)) && AllCoded(layout, codes, counts) && AllPuts(codes, segments, puts)
    ensures forall i, j :: 0 <= i < |puts| && 0 <= j < |puts[i]| ==> ValidPut(puts[i][j])
  {
    hide AllCoded, CountsOf, Uses, PutOf, Flat, Gathered;
    forall i, j | 0 <= i < |puts| && 0 <= j < |puts[i]|
      ensures ValidPut(puts[i][j])
    {
      assert Puts(codes, segments[i], puts[i]);
      SegmentMember(segments, i, j);
      var n :| 0 <= n < |Flat(segments)| && Flat(segments)[n] == segments[i][j];
      SymbolCoded(layout, codes, counts, Flat(segments), n);
    }
  }

  lemma {:induction false} SymbolCoded(layout: Layout, codes: Codes, counts: seq<seq<int>>, emits: seq<Emit>, i: nat)
    requires Gathered(layout, counts, emits) && AllCoded(layout, codes, counts) && i < |emits|
    ensures Emittable(emits[i]) && ValidPut(PutOf(codes, emits[i]))
  {
    hide Sum, CountOf, CodeWord, Uses, SlotDerived;
    var e := emits[i];
    CountedMember(emits, e.ac, e.tbl, e.symbol);
    assert Expected(layout, e);
    var c :| 0 <= c < |layout.comps| && e.tbl == if e.ac then layout.comps[c].acTbl else layout.comps[c].dcTbl;
    assert SlotCoded(codes, counts, SlotOf(layout.comps[c], e.ac));
    assert counts[Slot(e.ac, e.tbl)][e.symbol] == CountOf(emits, e.ac, e.tbl, e.symbol);
  }
}
