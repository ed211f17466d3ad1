/** The sequential Huffman decoder (jdhuff.c, decode_mcu_slow), and the main result: it
    undoes optimal coding. */
module HuffmanDecoding {
  import opened Shifts
  import opened ProbabilityTable
  import opened ByteCode
  import opened BitStrings
  import opened BitPacking
  import opened CodeLengths
  import opened Frequencies
  import opened OptimalTable
  import opened DerivedTable
  import opened DecodingTable
  import opened SymbolDecoding
  import opened BitWriters
  import opened Binarisation
  import opened HuffmanPasses
  import EobRuns
  import McuDecoding
  import EntropyEncoding

  // ----- the bits of symbols

  predicate Sendable(codes: Codes, e: Emit) {
    && Emittable(e) && SlotDerived(codes, Slot(e.ac, e.tbl)) && codes.size[Slot(e.ac, e.tbl)][e.symbol] > 0
    && e.nbits == e.symbol % 16
  }

  predicate AllSendable(codes: Codes, emits: seq<Emit>) {
    forall i :: 0 <= i < |emits| ==> Sendable(codes, emits[i])
  }

  function ValueBits(e: Emit): seq<Bit> {
    BitsOf(e.value % Pow2(e.nbits), e.nbits)
  }

  function OneBits(codes: Codes, e: Emit): seq<Bit>
    requires ShapedCodes(codes) && Emittable(e)
  {
    CodeWord(codes.code[Slot(e.ac, e.tbl)], codes.size[Slot(e.ac, e.tbl)], e.symbol) + ValueBits(e)
  }

  function EmitBits(codes: Codes, emits: seq<Emit>): seq<Bit>
    requires ShapedCodes(codes) && forall i :: 0 <= i < |emits| ==> Emittable(emits[i])
  {
    if emits == [] then [] else OneBits(codes, emits[0]) + EmitBits(codes, emits[1..])
  }

  lemma {:induction false} EmitBitsConcat(codes: Codes, a: seq<Emit>, b: seq<Emit>)
    requires ShapedCodes(codes) && (forall i :: 0 <= i < |a| ==> Emittable(a[i])) && (forall i :: 0 <= i < |b| ==> Emittable(b[i]))
    ensures EmitBits(codes, a + b) == EmitBits(codes, a) + EmitBits(codes, b)
  {
    hide OneBits;
    if a == [] {
      assert a + b == b;
    } else {
      EmitBitsConcat(codes, a[1..], b);
      assert (a + b)[1..] == a[1..] + b;
    }
  }

  /** The bit writer gets exactly these bits. */
  lemma {:induction false} PutsAreBits(codes: Codes, emits: seq<Emit>, puts: seq<Put>)
    requires Puts(codes, emits, puts)
    ensures BitsPut(puts) == EmitBits(codes, emits)
  {
    hide BitsPut, EmitBits, CodeWord, PutOf;
    NoEmits(codes);
    BitsPutNone();
    if puts != [] {
      var n := |puts| - 1;
      PutsAreBits(codes, emits[..n], puts[..n]);
      EmitBitsConcat(codes, emits[..n], [emits[n]]);
      assert emits == emits[..n] + [emits[n]];
      OneEmit(codes, emits[n]);
      BitsPutNext(puts, n);
      assert puts[..n + 1] == puts;
      assert puts[n] == PutOf(codes, emits[n]);
    }
  }

  lemma {:induction false} NoEmits(codes: Codes)
    requires ShapedCodes(codes)
    ensures EmitBits(codes, []) == []
  {
  }

  lemma {:induction false} OneEmit(codes: Codes, e: Emit)
    requires ShapedCodes(codes) && Emittable(e)
    ensures EmitBits(codes, [e]) == OneBits(codes, e)
    ensures var put := PutOf(codes, e);
            OneBits(codes, e) == BitsOf(put.code, put.size) + BitsOf(put.value % Pow2(put.nbits), put.nbits)
  {
    assert [e][1..] == [];
    assert EmitBits(codes, []) == [];
    assert OneBits(codes, e) + [] == OneBits(codes, e);
  }

  /** Where the table has a symbol that is coded. */
  lemma {:induction false} SymbolPosition(codes: Codes, t: nat, s: nat) returns (p: nat)
    requires SlotDerived(codes, t) && s < PSEUDO && codes.size[t][s] > 0
    ensures Nondecreasing(Sizes(codes.bits[t], LONGEST)) && p < |Sizes(codes.bits[t], LONGEST)| <= 256
    ensures var sizes := Sizes(codes.bits[t], LONGEST);
            codes.huffval[t][p] == s && sizes[p] == codes.size[t][s] && CodeNumber(sizes, p) == codes.code[t][s]
  {
    hide CodeNumber, Space, CodeAt;
    var sizes := Sizes(codes.bits[t], LONGEST);
    SizesOrdered(codes.bits[t], LONGEST);
    var list := codes.huffval[t][..|sizes|];
    assert s in list;
    p :| 0 <= p < |list| && list[p] == s;
    CodeIsNumber(sizes, p, codes.code[t][s]);
  }

  /** The first symbol's code word is ahead, then its value bits. */
  lemma {:induction false} WordAhead(codes: Codes, emits: seq<Emit>, after: seq<Bit>) returns (p: nat)
    requires AllSendable(codes, emits) && emits != [] && ShapedCodes(codes)
    ensures var e := emits[0];
            var sizes := Sizes(codes.bits[Slot(e.ac, e.tbl)], LONGEST);
            var rest := EmitBits(codes, emits) + after;
            && Nondecreasing(sizes) && p < |sizes| <= 256 && codes.huffval[Slot(e.ac, e.tbl)][p] == e.symbol
            && Ahead(sizes, p, rest)
            && Behind(rest, sizes[p]) == ValueBits(e) + (EmitBits(codes, emits[1..]) + after)
  {
    hide SlotDerived, Nondecreasing, CodeNumber, Sizes, ValueBits;
    var e := emits[0];
    assert Sendable(codes, e);
    p := SymbolPosition(codes, Slot(e.ac, e.tbl), e.symbol);
    var word := CodeWord(codes.code[Slot(e.ac, e.tbl)], codes.size[Slot(e.ac, e.tbl)], e.symbol);
    assert EmitBits(codes, emits) + after == word + (ValueBits(e) + (EmitBits(codes, emits[1..]) + after));
  }

  lemma {:induction false} ValueAhead(e: Emit, after: seq<Bit>)
    ensures var rest := ValueBits(e) + after;
            && e.nbits <= |rest| && Behind(rest, e.nbits) == after
            && Number(Filled(rest, e.nbits)) == e.value % Pow2(e.nbits)
  {
    var v, p := e.value % Pow2(e.nbits), Pow2(e.nbits);
    NumberOfBits(v, e.nbits);
    assert Filled(ValueBits(e) + after, e.nbits) == ValueBits(e);
    hide BitsOf, Number, Pow2;
    QuotientIs(v, p, 0);
  }

  // ----- values

  /** The low bits of a value, or of its predecessor, give it back. */
  lemma {:induction false} ExtendValue(x: int)
    requires x != 0
    ensures NBits(x) > 0 && HuffExtend(ValueOf(x) % Pow2(NBits(x)), NBits(x)) == x
  {
    hide EobRuns.BitLength, Pow2;
    var n := NBits(x);
    LengthBounds(Abs(x));
    Pow2Double(n - 1);
    if x < 0 {
      NegativeRemainder(x - 1, Pow2(n));
    } else {
      Remainder(x, Pow2(n));
    }
  }

  lemma {:induction false} NegativeRemainder(v: int, p: nat)
    requires p > 0 && 0 - p <= v < 0
    ensures v % p == v + p
  {
    var m: int := v / p + 1;
    assert m * p == v / p * p + p;
    MulMonotone(1, m, p);
    MulMonotone(m, 0 - 1, p);
  }

  lemma {:induction false} LengthBounds(m: nat)
    requires m > 0
    ensures EobRuns.BitLength(m) > 0 && Pow2(EobRuns.BitLength(m) - 1) <= m < Pow2(EobRuns.BitLength(m))
  {
    if m / 2 > 0 {
      LengthBounds(m / 2);
      Pow2Double(EobRuns.BitLength(m / 2) - 1);
      Pow2Double(EobRuns.BitLength(m / 2));
    } else {
      Pow2Small();
      assert EobRuns.BitLength(m / 2) == 0;
    }
  }

  // ----- what an AC band looks like from the decoder's side

  lemma {:induction false} ZerosPassed(block: Block, tbl: nat, k: nat, q: nat, r: nat)
    requires k <= q <= 64 && forall i :: k <= i < q ==> block[i] == 0
    ensures AcEmits(block, tbl, k, r) == AcEmits(block, tbl, q, r + (q - k))
    decreases q - k
  {
    if k < q {
      ZerosPassed(block, tbl, k + 1, q, r + 1);
    }
  }

  lemma {:induction false} ZeroRunsFirst(tbl: nat, r: nat)
    ensures r > 15 ==> ZeroRuns(tbl, r) == [Emit(true, tbl, 0xF0, 0, 0)] + ZeroRuns(tbl, r - 16)
    ensures r <= 15 ==> ZeroRuns(tbl, r) == []
  {
  }

  /** The nonzero coefficient at `q`, behind zeros from `k`. */
  function ValueAt(block: Block, tbl: nat, k: nat, q: nat): Emit
    requires k <= q < 64
  {
    Emit(true, tbl, 16 * (q - k) + NBits(block[q]), ValueOf(block[q]), NBits(block[q]))
  }

  /** What comes next: the end of the block, sixteen zeros, or a value. */
  lemma {:induction false} AcNext(block: Block, tbl: nat, k: nat) returns (q: nat)
    requires k < 64
    ensures k <= q <= 64 && (forall i :: k <= i < q ==> block[i] == 0) && (q < 64 ==> block[q] != 0)
    ensures q == 64 ==> AcEmits(block, tbl, k, 0) == [Emit(true, tbl, 0, 0, 0)]
    ensures q < 64 && q - k > 15 ==>
              AcEmits(block, tbl, k, 0) == [Emit(true, tbl, 0xF0, 0, 0)] + AcEmits(block, tbl, k + 16, 0)
    ensures q < 64 && q - k <= 15 ==> AcEmits(block, tbl, k, 0) == [ValueAt(block, tbl, k, q)] + AcEmits(block, tbl, q + 1, 0)
  {
    hide AcEmits, ZeroRuns, EobRuns.BitLength;
    q := k;
    while q < 64 && block[q] == 0
      invariant k <= q <= 64 && forall i :: k <= i < q ==> block[i] == 0
    {
      q := q + 1;
    }
    if q == 64 {
      ZerosPassed(block, tbl, k, q, 0);
      AcEmitsEnd(block, tbl, q - k);
    } else {
      AcValue(block, tbl, k, q);
    }
  }

  lemma {:induction false} AcValue(block: Block, tbl: nat, k: nat, q: nat)
    requires k <= q < 64 && (forall i :: k <= i < q ==> block[i] == 0) && block[q] != 0
    ensures q - k > 15 ==> AcEmits(block, tbl, k, 0) == [Emit(true, tbl, 0xF0, 0, 0)] + AcEmits(block, tbl, k + 16, 0)
    ensures q - k <= 15 ==> AcEmits(block, tbl, k, 0) == [ValueAt(block, tbl, k, q)] + AcEmits(block, tbl, q + 1, 0)
  {
    hide AcEmits, ZeroRuns, EobRuns.BitLength, NBits, ValueOf;
    var n := q - k;
    ZerosPassed(block, tbl, k, q, 0);
    AcEmitsStep(block, tbl, q, n);
    ZeroRunsFirst(tbl, n);
    var value := Emit(true, tbl, 16 * (n % 16) + NBits(block[q]), ValueOf(block[q]), NBits(block[q]));
    var more := AcEmits(block, tbl, q + 1, 0);
    if n > 15 {
      ZerosPassed(block, tbl, k + 16, q, 0);
      AcEmitsStep(block, tbl, q, n - 16);
      assert (n - 16) % 16 == n % 16;
      var zrl, others := [Emit(true, tbl, 0xF0, 0, 0)], ZeroRuns(tbl, n - 16);
      assert zrl + others + [value] + more == zrl + (others + [value] + more);
    } else {
      assert [] + [value] == [value];
    }
  }

  /** The same, by what the decoder makes of the symbol. */
  lemma {:induction false} AcAhead(codes: Codes, block: Block, tbl: nat, k: nat, after: seq<Bit>) returns (q: nat)
    requires k < 64 && ShapedCodes(codes) && AllSendable(codes, AcEmits(block, tbl, k, 0))
    ensures k <= q <= 64 && forall i :: k <= i < q ==> block[i] == 0
    ensures var emits := AcEmits(block, tbl, k, 0);
            && emits != [] && emits[0].ac && emits[0].tbl == tbl && emits[0].nbits == emits[0].symbol % 16
            && AllSendable(codes, emits[1..])
            && (q == 64 ==> emits[0].symbol == 0 && ValueBits(emits[0]) + (EmitBits(codes, emits[1..]) + after) == after)
            && (q < 64 && q - k > 15 ==>
                  && emits[0].symbol == 0xF0 && emits[1..] == AcEmits(block, tbl, k + 16, 0)
                  && ValueBits(emits[0]) + (EmitBits(codes, emits[1..]) + after) == EmitBits(codes, emits[1..]) + after)
            && (q < 64 && q - k <= 15 ==>
                  && emits[0].symbol / 16 == q - k && emits[0].nbits > 0 && emits[1..] == AcEmits(block, tbl, q + 1, 0)
                  && HuffExtend(emits[0].value % Pow2(emits[0].nbits), emits[0].nbits) == block[q])
  {
    hide AcEmits, EmitBits, ValueBits, HuffExtend, Pow2, EobRuns.BitLength, SlotDerived;
    q := AcNext(block, tbl, k);
    var emits := AcEmits(block, tbl, k, 0);
    SendableTail(codes, emits);
    if q == 64 {
      assert emits[1..] == [];
      NothingLeft(codes, block, tbl, after);
      NoValueBits(emits[0], after);
    } else if q - k > 15 {
      NoValueBits(emits[0], EmitBits(codes, emits[1..]) + after);
    } else {
      assert emits[0] == ValueAt(block, tbl, k, q);
      ExtendValue(block[q]);
    }
  }

  // ----- segments of bytes

  /** Segments with restart markers between them, the first numbered `num`, and a marker at
      the end. */
  function Stream(raws: seq<seq<Byte>>, num: nat, end: Byte): seq<Byte>
    requires raws != [] && num < 8
  {
    Stuff(raws[0]) + (if |raws| == 1 then [0xFF, end] else [0xFF as Byte, (0xD0 + num) as Byte] + Stream(raws[1..], (num + 1) % 8, end))
  }

  /** The marker just read, and what follows it, lead to these segments. */
  predicate Onward(marker: Byte, unread: seq<Byte>, num: nat, raws: seq<seq<Byte>>, end: Byte) {
    num < 8 && (raws != [] ==> marker == 0xD0 + num && unread == Stream(raws, (num + 1) % 8, end))
  }

  /** Data bytes up to a marker: a stuffed zero is dropped, and so is fill before a marker.
      A stream that breaks off ends like one with an end-of-image marker. */
  method ReadSegment(input: seq<Byte>, ghost known: bool, ghost raws: seq<seq<Byte>>, ghost num: nat, ghost end: Byte)
    returns (data: seq<Byte>, marker: Byte, rest: seq<Byte>)
    requires known ==> raws != [] && num < 8 && 0 < end < 255 && input == Stream(raws, num, end)
    ensures known ==> data == raws[0] && Onward(marker, rest, num, raws[1..], end)
  {
    hide Stuff, Stream;
    data := [];
    var pos := 0;
    ghost var last: Byte, tail := 1, [];
    if known {
      last, tail := StreamFirst(raws, num, end);
      assert raws[0][0..] == raws[0];
    }
    while pos < |input|
      invariant pos <= |input|
      invariant known ==>
                  && |data| <= |raws[0]| && data == raws[0][..|data|]
                  && input[pos..] == Stuff(raws[0][|data|..]) + ([0xFF, last] + tail)
    {
      ghost var pos0 := pos;
      if known {
        StuffAhead(raws[0], |data|, input[pos..], [0xFF, last] + tail);
      }
      var c := input[pos];
      pos := pos + 1;
      if c == 0xFF {
        assert known ==> input[pos0..][1] == input[pos];
        while pos < |input| && input[pos] == 0xFF
          invariant pos0 < pos <= |input| && (known ==> pos == pos0 + 1)
        {
          pos := pos + 1;
        }
        if pos == |input| {
          break;
        }
        c := input[pos];
        pos := pos + 1;
        if c != 0 {
          assert known ==> input[pos0..][2..] == input[pos..];
          return data, c, input[pos..];
        }
        c := 0xFF;
      }
      assert known ==> input[pos0..][pos - pos0..] == input[pos..];
      data := data + [c];
    }
    return data, 0xD9, [];
  }

  lemma {:induction false} StreamFirst(raws: seq<seq<Byte>>, num: nat, end: Byte) returns (marker: Byte, tail: seq<Byte>)
    requires raws != [] && num < 8 && 0 < end < 255
    ensures Stream(raws, num, end) == Stuff(raws[0]) + ([0xFF, marker] + tail)
    ensures 0 < marker < 255 && Onward(marker, tail, num, raws[1..], end)
  {
    hide Stuff;
    marker := if |raws| == 1 then end else (0xD0 + num) as Byte;
    tail := if |raws| == 1 then [] else Stream(raws[1..], (num + 1) % 8, end);
    assert [0xFF, end] + [] == [0xFF, end];
  }

  /** What stands at the front of a stuffed segment and its marker. */
  lemma {:induction false} StuffAhead(raw: seq<Byte>, n: nat, input: seq<Byte>, tail: seq<Byte>)
    requires n <= |raw| && input == Stuff(raw[n..]) + tail && |tail| >= 2 && tail[0] == 0xFF && 0 < tail[1] < 255
    ensures |input| >= 1
    ensures n == |raw| ==> input == tail && raw[..n] == raw
    ensures n < |raw| ==>
              var size := if raw[n] == 255 then 2 else 1;
              && input[0] == raw[n] && size <= |input| && (size == 2 ==> input[1] == 0)
              && input[size..] == Stuff(raw[n + 1..]) + tail && raw[..n + 1] == raw[..n] + [raw[n]]
  {
    if n < |raw| {
      assert raw[n..][1..] == raw[n + 1..];
      assert Stuff(raw[n..]) == Stuffed(raw[n]) + Stuff(raw[n + 1..]);
      assert Stuffed(raw[n]) + Stuff(raw[n + 1..]) + tail == Stuffed(raw[n]) + (Stuff(raw[n + 1..]) + tail);
    } else {
      assert Stuff(raw[n..]) == [];
      assert [] + tail == tail;
    }
  }

  // ----- what the stream holds

  predicate Carried(codes: Codes, emits: seq<Emit>, bits: seq<Bit>) {
    ShapedCodes(codes) && AllSendable(codes, emits) && EmitBits(codes, emits) <= bits
  }

  /** The open segment and the following ones. */
  predicate SegmentsCarried(codes: Codes, segments: seq<seq<Emit>>, rest: seq<Bit>, raws: seq<seq<Byte>>) {
    && |segments| == |raws| + 1 && Carried(codes, segments[0], rest)
    && forall i :: 0 <= i < |raws| ==> Carried(codes, segments[i + 1], ByteBits(raws[i]))
  }

  /** In front of an MCU: a new segment if there is a restart, and then the MCU. */
  lemma {:induction false} SegmentsAhead(layout: Layout, codes: Codes, st: Progress, mcus: seq<seq<Block>>, rest: seq<Bit>, raws: seq<seq<Byte>>)
    returns (onward: seq<seq<Emit>>)
    requires ValidLayout(layout) && ValidProgress(layout, st) && ValidMcus(layout, mcus) && mcus != []
    requires SegmentsCarried(codes, Segments(layout, st, mcus), rest, raws)
    ensures var now := Restarted(layout, st);
            onward == Segments(layout, now.(last := McuLast(layout, now.last, mcus[0], 0)), mcus[1..])
    ensures var emits := McuEmits(layout, Restarted(layout, st).last, mcus[0], 0);
            if Restarts(layout, st) then raws != [] && SegmentsCarried(codes, Continued(emits, onward), ByteBits(raws[0]), raws[1..])
            else SegmentsCarried(codes, Continued(emits, onward), rest, raws)
  {
    hide Carried, McuEmits, McuLast, Continued, ByteBits;
    var now := Restarted(layout, st);
    onward := Segments(layout, now.(last := McuLast(layout, now.last, mcus[0], 0)), mcus[1..]);
    var segments := Continued(McuEmits(layout, now.last, mcus[0], 0), onward);
    if Restarts(layout, st) {
      assert Segments(layout, st, mcus) == [[]] + segments;
      forall i | 0 <= i < |raws|
        ensures Carried(codes, segments[i], ByteBits(raws[i]))
      {
        assert ([[]] + segments)[i + 1] == segments[i];
      }
    } else {
      assert Segments(layout, st, mcus) == [] + segments == segments;
    }
  }

  lemma {:induction false} McuAhead(codes: Codes, emits: seq<Emit>, onward: seq<seq<Emit>>, rest: seq<Bit>, raws: seq<seq<Byte>>) returns (after: seq<Bit>)
    requires onward != [] && SegmentsCarried(codes, Continued(emits, onward), rest, raws)
    ensures ShapedCodes(codes) && AllSendable(codes, emits) && rest == EmitBits(codes, emits) + after
    ensures SegmentsCarried(codes, onward, after, raws)
  {
    hide EmitBits, ByteBits, SlotDerived;
    SendableParts(codes, emits, onward[0]);
    EmitBitsConcat(codes, emits, onward[0]);
    after := rest[|EmitBits(codes, emits)|..];
    forall i | 0 <= i < |raws|
      ensures Carried(codes, onward[i + 1], ByteBits(raws[i]))
    {
      assert Continued(emits, onward)[i + 1] == onward[i + 1];
    }
  }

  // ----- the decoder

  /** The two's complement value of the low 32 bits. */
  function ToInt(v: int): int {
    var w := v % 0x1_0000_0000;
    if w < 0x8000_0000 then w else w - 0x1_0000_0000
  }

  class HuffDecoder {
    const layout: Layout
    const bits: seq<seq<nat>>        // the tables as they were sent
    const huffval: seq<seq<int>>
    const tables: seq<DTable>
    var reader: BitReader            // the open segment
    var unread: seq<Byte>            // behind the marker that ends it
    var unreadMarker: Byte
    var nextRestartNum: nat
    var lastDcVal: seq<int>
    var restartsToGo: nat

    ghost predicate TableReady(t: nat) {
      && t < |tables| && t < |bits| && t < |huffval|
      && tables[t].huffval == huffval[t] && Decodes(tables[t], bits[t], tables[t].huffval)
    }

    ghost predicate CompReady(comp: Comp) {
      comp.dcTbl < TABLES && comp.acTbl < TABLES && TableReady(SlotOf(comp, false)) && TableReady(SlotOf(comp, true))
    }

    ghost predicate Valid()
      reads this
    {
      && ValidLayout(layout) && |lastDcVal| == |layout.comps| && nextRestartNum < 8
      && forall c :: 0 <= c < |layout.comps| ==> CompReady(layout.comps[c])
    }

    /** The tables here are those of the encoder. */
    predicate SameTables(codes: Codes) {
      bits == codes.bits && huffval == codes.huffval
    }

    /** At the start of a scan; all bits up to the first marker are at hand. */
    constructor (layout: Layout, bits: seq<seq<nat>>, huffval: seq<seq<int>>, tables: seq<DTable>, input: seq<Byte>,
                 ghost known: bool, ghost raws: seq<seq<Byte>>, ghost end: Byte)
      requires known ==> raws != [] && 0 < end < 255 && input == Stream(raws, 0, end)
      ensures this.layout == layout && this.bits == bits && this.huffval == huffval && this.tables == tables
      ensures fresh(reader) && !reader.insufficientData && nextRestartNum == 0
      ensures lastDcVal == Start(layout).last && restartsToGo == Start(layout).toGo
      ensures known ==> reader.rest == ByteBits(raws[0]) && Onward(unreadMarker, unread, 0, raws[1..], end)
    {
      this.layout, this.bits, this.huffval, this.tables := layout, bits, huffval, tables;
      lastDcVal, restartsToGo, nextRestartNum := seq(|layout.comps|, _ => 0), layout.restartInterval, 0;
      var data, marker, rest := ReadSegment(input, known, raws, 0, end);
      reader := new BitReader(ByteBits(data));
      unread, unreadMarker := rest, marker;
    }

    /** Discards what is left of the segment, and reads the next if its marker is the one
        expected. */
    method ProcessRestart(ghost known: bool, ghost raws: seq<seq<Byte>>, ghost end: Byte)
      requires nextRestartNum < 8
      requires known ==> raws != [] && 0 < end < 255 && Onward(unreadMarker, unread, nextRestartNum, raws, end)
      modifies this, reader
      ensures reader == old(reader) && nextRestartNum == (old(nextRestartNum) + 1) % 8
      ensures lastDcVal == Start(layout).last && restartsToGo == layout.restartInterval
      ensures known ==>
                && reader.rest == ByteBits(raws[0]) && !reader.insufficientData
                && Onward(unreadMarker, unread, nextRestartNum, raws[1..], end)
    {
      hide Stream, ByteBits;
      reader.rest := [];
      var num := (nextRestartNum + 1) % 8;
      if unreadMarker == 0xD0 + nextRestartNum {
        var data, marker, rest := ReadSegment(unread, known, raws, num, end);
        reader.rest, reader.insufficientData := ByteBits(data), false;
        unread, unreadMarker := rest, marker;
      }
      nextRestartNum := num;
      lastDcVal := seq(|layout.comps|, _ => 0);
      restartsToGo := layout.restartInterval;
    }

    /** The next symbol and its value bits; of an encoder's stream, the ones it put. */
    method DecodeSymbol(t: nat, ghost known: bool, ghost codes: Codes, ghost emits: seq<Emit>, ghost after: seq<Bit>) returns (symbol: nat)
      requires TableReady(t)
      requires known ==>
                 && SameTables(codes) && ShapedCodes(codes) && AllSendable(codes, emits) && emits != []
                 && t == Slot(emits[0].ac, emits[0].tbl) && reader.rest == EmitBits(codes, emits) + after
      modifies reader
      ensures symbol < 256
      ensures known ==>
                && symbol == emits[0].symbol && reader.insufficientData == old(reader.insufficientData)
                && reader.rest == ValueBits(emits[0]) + (EmitBits(codes, emits[1..]) + after)
    {
      hide EmitBits, Decodes, Sizes, Ahead, AllSendable, ValueBits, Nondecreasing;
      ghost var p := 0;
      if known {
        p := WordAhead(codes, emits, after);
      }
      SymbolsBelow(tables[t], bits[t]);
      symbol := reader.HuffDecode(tables[t], bits[t]);
    }

    /** An encoder's value bits. */
    method DecodeValue(n: nat, ghost known: bool, ghost e: Emit, ghost after: seq<Bit>) returns (v: int)
      requires n > 0 && (known ==> n == e.nbits && reader.rest == ValueBits(e) + after)
      modifies reader
      ensures known ==>
                && v == HuffExtend(e.value % Pow2(n), n) && reader.rest == after
                && reader.insufficientData == old(reader.insufficientData)
    {
      hide ValueBits, Number, Pow2;
      if known {
        ValueAhead(e, after);
      }
      v := reader.GetBits(n);
      v := HuffExtend(v, n);
    }

    /** The AC coefficients of a block that is zero behind its first one. */
    method DecodeAc(tbl: nat, dc: Coef, ghost known: bool, ghost codes: Codes, ghost target: Block, ghost after: seq<Bit>)
      returns (block: seq<Coef>)
      requires tbl < TABLES && TableReady(Slot(true, tbl))
      requires known ==>
                 && SameTables(codes) && ShapedCodes(codes) && AllSendable(codes, AcEmits(target, tbl, 1, 0))
                 && dc == target[0] && reader.rest == EmitBits(codes, AcEmits(target, tbl, 1, 0)) + after
      modifies reader
      ensures |block| == 64
      ensures known ==> block == target && reader.rest == after && reader.insufficientData == old(reader.insufficientData)
    {
      hide TableReady, EmitBits, AcEmits, SlotDerived, ValueBits, EobRuns.BitLength, HuffExtend;
      block := seq(64, _ => 0)[0 := dc];
      var k := 1;
      while k < 64
        invariant |block| == 64 && 1 <= k <= 80 && (known ==> k <= 64)
        invariant known ==> ShapedCodes(codes) && AllSendable(codes, AcEmits(target, tbl, k, 0))
        invariant known ==> reader.rest == EmitBits(codes, AcEmits(target, tbl, k, 0)) + after
        invariant known ==> forall i :: 0 <= i < 64 ==> block[i] == if i < k then target[i] else 0
        invariant known ==> reader.insufficientData == old(reader.insufficientData)
        decreases 80 - k
      {
        ghost var emits, q := [], 0;
        if known {
          emits := AcEmits(target, tbl, k, 0);
          q := AcAhead(codes, target, tbl, k, after);
        }
        var s := DecodeSymbol(Slot(true, tbl), known, codes, emits, after);
        var r := s / 16;
        s := s % 16;
        if s != 0 {
          k := k + r;
          var v := DecodeValue(s, known, if known then emits[0] else Emit(true, 0, 0, 0, 0), if known then EmitBits(codes, emits[1..]) + after else []);
          block := block[(if k < 64 then k else 63) := McuDecoding.ToCoef(v)];
        } else {
          if r != 15 {
            break;
          }
          k := k + 15;
        }
        k := k + 1;
      }
      if known {
        NothingLeft(codes, target, tbl, after);
      }
    }

    /** A block, and its DC value as the next prediction. */
    method DecodeBlock(comp: Comp, last: int, ghost known: bool, ghost codes: Codes, ghost target: Block, ghost after: seq<Bit>)
      returns (block: seq<Coef>, dc: int)
      requires CompReady(comp)
      requires known ==>
                 && SameTables(codes) && ShapedCodes(codes) && AllSendable(codes, BlockEmits(target, last, comp))
                 && reader.rest == EmitBits(codes, BlockEmits(target, last, comp)) + after
      modifies reader
      ensures |block| == 64
      ensures known ==>
                && block == target && dc == target[0] && reader.rest == after
                && reader.insufficientData == old(reader.insufficientData)
    {
      hide TableReady, EmitBits, AcEmits, SlotDerived, ValueBits, EobRuns.BitLength, HuffExtend;
      ghost var emits, onward := [], [];
      if known {
        emits := BlockEmits(target, last, comp);
        SendableTail(codes, emits);
        assert emits[1..] == AcEmits(target, comp.acTbl, 1, 0);
        onward := EmitBits(codes, emits[1..]) + after;
        DcAhead(emits[0], target[0] - last, onward);
      }
      var s := DecodeSymbol(SlotOf(comp, false), known, codes, emits, after);
      var diff := 0;
      if s != 0 {
        diff := DecodeValue(s, known, if known then emits[0] else Emit(false, 0, 0, 0, 0), onward);
      }
      dc := ToInt(last + diff);
      block := DecodeAc(comp.acTbl, McuDecoding.ToCoef(dc), known, codes, target, after);
    }

    /** The blocks of an MCU. */
    method DecodeMcuSlow(ghost known: bool, ghost codes: Codes, ghost target: seq<Block>, ghost after: seq<Bit>) returns (mcu: seq<seq<Coef>>)
      requires Valid()
      requires known ==>
                 && SameTables(codes) && ShapedCodes(codes) && |target| == |layout.membership|
                 && AllSendable(codes, McuEmits(layout, lastDcVal, target, 0))
                 && reader.rest == EmitBits(codes, McuEmits(layout, lastDcVal, target, 0)) + after
      modifies reader, `lastDcVal
      ensures Valid() && |mcu| == |layout.membership|
      ensures known ==>
                && mcu == target && lastDcVal == McuLast(layout, old(lastDcVal), target, 0) && reader.rest == after
                && reader.insufficientData == old(reader.insufficientData)
    {
      hide CompReady, EmitBits, BlockEmits, Sendable;
      mcu := [];
      ghost var blocks := if known then target else [];
      for b := 0 to |layout.membership|
        invariant Valid() && |mcu| == b
        invariant known ==>
                    && mcu == target[..b] && reader.insufficientData == old(reader.insufficientData)
                    && EmittedFrom(codes, layout, lastDcVal, target, b, reader.rest, after)
                    && McuLast(layout, lastDcVal, target, b) == McuLast(layout, old(lastDcVal), target, 0)
      {
        var c := layout.membership[b];
        ghost var onward := [];
        if known {
          onward := BlockAhead(codes, layout, lastDcVal, target, b, reader.rest, after);
        }
        var block, dc := DecodeBlock(layout.comps[c], lastDcVal[c], known, codes, if known then target[b] else seq(64, _ => 0), onward);
        lastDcVal := lastDcVal[c := dc];
        mcu := mcu + [block];
      }
      if known {
        NoBlockAhead(codes, layout, lastDcVal, target, reader.rest, after);
      }
    }

    ghost function Now(): Progress
      reads this
    {
      Progress(lastDcVal, restartsToGo)
    }

    /** What is still to be read is an encoder's output for these MCUs. */
    ghost predicate Follows(codes: Codes, mcus: seq<seq<Block>>, raws: seq<seq<Byte>>, end: Byte)
      reads this, reader
    {
      && Valid() && SameTables(codes) && ShapedCodes(codes) && ValidMcus(layout, mcus)
      && !reader.insufficientData && 0 < end < 255
      && Onward(unreadMarker, unread, nextRestartNum, raws, end)
      && SegmentsCarried(codes, Segments(layout, Now(), mcus), reader.rest, raws)
    }

    /** What BeginMcu leaves: the MCU and what follows it are in the stream. */
    ghost predicate McuDue(codes: Codes, st: Progress, mcus: seq<seq<Block>>, raws: seq<seq<Byte>>, end: Byte, after: seq<Bit>)
      reads this, reader
    {
      && Valid() && SameTables(codes) && ShapedCodes(codes) && ValidMcus(layout, mcus) && mcus != []
      && ValidProgress(layout, st) && lastDcVal == Restarted(layout, st).last
      && !reader.insufficientData && 0 < end < 255
      && Onward(unreadMarker, unread, nextRestartNum, raws, end)
      && AllSendable(codes, McuEmits(layout, lastDcVal, mcus[0], 0))
      && reader.rest == EmitBits(codes, McuEmits(layout, lastDcVal, mcus[0], 0)) + after
      && SegmentsCarried(codes, Segments(layout, Restarted(layout, st).(last := McuLast(layout, lastDcVal, mcus[0], 0)), mcus[1..]), after, raws)
    }

    method BeginMcu(ghost known: bool, ghost codes: Codes, ghost mcus: seq<seq<Block>>, ghost raws0: seq<seq<Byte>>, ghost end: Byte)
      returns (ghost raws: seq<seq<Byte>>, ghost after: seq<Bit>)
      requires Valid() && (known ==> mcus != [] && Follows(codes, mcus, raws0, end))
      modifies this, reader
      ensures Valid() && reader == old(reader)
      ensures known ==> McuDue(codes, old(Now()), mcus, raws, end, after)
      ensures restartsToGo == if Restarts(layout, old(Now())) then layout.restartInterval else old(restartsToGo)
      ensures !Restarts(layout, old(Now())) ==> reader.insufficientData == old(reader.insufficientData)
    {
      hide CompReady, Segments, SegmentsCarried, ByteBits, Stream, McuEmits, McuLast, EmitBits, AllSendable, Onward, Continued;
      raws, after := raws0, [];
      ghost var st, onward := Now(), [[]];
      if known {
        onward := SegmentsAhead(layout, codes, st, mcus, reader.rest, raws);
      }
      if layout.restartInterval != 0 && restartsToGo == 0 {
        ProcessRestart(known, raws, end);
        raws := if known then raws[1..] else raws;
      }
      if known {
        after := McuAhead(codes, McuEmits(layout, Restarted(layout, st).last, mcus[0], 0), onward, reader.rest, raws);
      }
    }

    /** One MCU, left at zero once data are missing. */
    method DecodeMcu(ghost known: bool, ghost codes: Codes, ghost mcus: seq<seq<Block>>, ghost raws0: seq<seq<Byte>>, ghost end: Byte)
      returns (mcu: seq<seq<Coef>>, ghost raws: seq<seq<Byte>>)
      requires Valid() && (known ==> mcus != [] && Follows(codes, mcus, raws0, end))
      modifies this, reader
      ensures Valid() && reader == old(reader) && |mcu| == |layout.membership|
      ensures known ==> mcu == mcus[0] && Follows(codes, mcus[1..], raws, end)
      ensures old(reader.insufficientData) && !Restarts(layout, old(Now())) ==>
                reader.insufficientData && forall b :: 0 <= b < |mcu| ==> mcu[b] == seq(64, _ => 0)
    {
      hide CompReady, Segments, SegmentsCarried, ByteBits, Stream, McuEmits, McuLast, EmitBits, AllSendable, Onward;
      ghost var st, after := Now(), [];
      raws, after := BeginMcu(known, codes, mcus, raws0, end);
      if reader.insufficientData {
        mcu := seq(|layout.membership|, _ => seq(64, _ => 0));
      } else {
        mcu := DecodeMcuSlow(known, codes, if known then mcus[0] else [], after);
      }
      if layout.restartInterval != 0 && restartsToGo > 0 {
        restartsToGo := restartsToGo - 1;
      }
    }
  }

  lemma {:induction false} SendableTail(codes: Codes, emits: seq<Emit>)
    requires AllSendable(codes, emits) && emits != []
    ensures Sendable(codes, emits[0]) && AllSendable(codes, emits[1..])
  {
    hide Sendable;
  }

  lemma {:induction false} NoValueBits(e: Emit, after: seq<Bit>)
    requires e.nbits == 0
    ensures ValueBits(e) + after == after
  {
  }

  lemma {:induction false} NothingLeft(codes: Codes, block: Block, tbl: nat, after: seq<Bit>)
    requires ShapedCodes(codes)
    ensures EmitBits(codes, AcEmits(block, tbl, 64, 0)) + after == after
    ensures EmitBits(codes, []) + after == after
  {
    AcEmitsEnd(block, tbl, 0);
    assert EmitBits(codes, []) == [];
    assert [] + after == after;
  }

  lemma {:induction false} DcAhead(e: Emit, diff: int, onward: seq<Bit>)
    requires e.nbits == e.symbol == NBits(diff) && e.value == ValueOf(diff)
    ensures e.symbol == 0 ==> diff == 0 && ValueBits(e) + onward == onward
    ensures e.symbol > 0 ==> HuffExtend(e.value % Pow2(e.nbits), e.nbits) == diff
  {
    hide EobRuns.BitLength, HuffExtend, Pow2;
    if diff != 0 {
      ExtendValue(diff);
    } else {
      ZeroBits();
      NoValueBits(e, onward);
    }
  }

  /** The stream holds the blocks from `b` on. */
  predicate EmittedFrom(codes: Codes, layout: Layout, last: seq<int>, mcu: seq<Block>, b: nat, rest: seq<Bit>, after: seq<Bit>) {
    && ShapedCodes(codes) && ValidLayout(layout) && |last| == |layout.comps| && |mcu| == |layout.membership| && b <= |mcu|
    && AllSendable(codes, McuEmits(layout, last, mcu, b))
    && rest == EmitBits(codes, McuEmits(layout, last, mcu, b)) + after
  }

  lemma {:induction false} BlockAhead(codes: Codes, layout: Layout, last: seq<int>, mcu: seq<Block>, b: nat, rest: seq<Bit>, after: seq<Bit>)
    returns (onward: seq<Bit>)
    requires EmittedFrom(codes, layout, last, mcu, b, rest, after) && b < |mcu|
    ensures var c := layout.membership[b];
            && AllSendable(codes, BlockEmits(mcu[b], last[c], layout.comps[c]))
            && rest == EmitBits(codes, BlockEmits(mcu[b], last[c], layout.comps[c])) + onward
            && EmittedFrom(codes, layout, last[c := mcu[b][0]], mcu, b + 1, onward, after)
            && McuLast(layout, last, mcu, b) == McuLast(layout, last[c := mcu[b][0]], mcu, b + 1)
  {
    var c := layout.membership[b];
    var first, others := BlockEmits(mcu[b], last[c], layout.comps[c]), McuEmits(layout, last[c := mcu[b][0]], mcu, b + 1);
    assert McuEmits(layout, last, mcu, b) == first + others;
    assert McuLast(layout, last, mcu, b) == McuLast(layout, last[c := mcu[b][0]], mcu, b + 1);
    hide EmitBits, BlockEmits, AllSendable, McuEmits, McuLast;
    onward := EmitsAhead(codes, first, others, rest, after);
  }

  lemma {:induction false} EmitsAhead(codes: Codes, first: seq<Emit>, others: seq<Emit>, rest: seq<Bit>, after: seq<Bit>)
    returns (onward: seq<Bit>)
    requires ShapedCodes(codes) && AllSendable(codes, first + others) && rest == EmitBits(codes, first + others) + after
    ensures AllSendable(codes, first) && AllSendable(codes, others)
    ensures onward == EmitBits(codes, others) + after && rest == EmitBits(codes, first) + onward
  {
    hide EmitBits, Sendable;
    SendableParts(codes, first, others);
    AllEmittable(codes, first);
    AllEmittable(codes, others);
    AllEmittable(codes, first + others);
    hide AllSendable, Emittable, ShapedCodes;
    EmitBitsConcat(codes, first, others);
    onward := EmitBits(codes, others) + after;
    assert EmitBits(codes, first) + EmitBits(codes, others) + after == EmitBits(codes, first) + onward;
  }

  lemma {:induction false} AllEmittable(codes: Codes, emits: seq<Emit>)
    requires AllSendable(codes, emits)
    ensures forall i :: 0 <= i < |emits| ==> Emittable(emits[i])
  {
  }

  lemma {:induction false} NoBlockAhead(codes: Codes, layout: Layout, last: seq<int>, mcu: seq<Block>, rest: seq<Bit>, after: seq<Bit>)
    requires EmittedFrom(codes, layout, last, mcu, |mcu|, rest, after)
    ensures rest == after && McuLast(layout, last, mcu, |mcu|) == last
  {
    assert EmitBits(codes, []) == [];
  }

  lemma {:induction false} SendableParts(codes: Codes, a: seq<Emit>, b: seq<Emit>)
    requires AllSendable(codes, a + b)
    ensures AllSendable(codes, a) && AllSendable(codes, b)
  {
    hide Sendable;
    forall i | 0 <= i < |a|
      ensures Sendable(codes, a[i])
    {
      assert (a + b)[i] == a[i];
    }
    forall i | 0 <= i < |b|
      ensures Sendable(codes, b[i])
    {
      assert (a + b)[|a| + i] == b[i];
    }
  }

  lemma {:induction false} SymbolsBelow(t: DTable, bits: seq<nat>)
    requires Decodes(t, bits, t.huffval)
    ensures Nondecreasing(Sizes(bits, LONGEST)) && |Sizes(bits, LONGEST)| <= 256
    ensures forall s :: s in t.huffval[..|Sizes(bits, LONGEST)|] ==> s < 256
  {
    hide Sizes;
    DecodingFacts(t, bits);
  }

  // ----- whole scans

  predicate TablesSent(layout: Layout, bits: seq<seq<nat>>, huffval: seq<seq<int>>) {
    && ValidLayout(layout) && |bits| == |huffval| == 2 * TABLES
    && forall c, ac :: 0 <= c < |layout.comps| ==> WellShaped(bits[SlotOf(layout.comps[c], ac)], huffval[SlotOf(layout.comps[c], ac)])
  }

  predicate SlotDecodable(layout: Layout, bits: seq<seq<nat>>, huffval: seq<seq<int>>, c: nat, ac: bool)
    requires TablesSent(layout, bits, huffval) && c < |layout.comps|
  {
    Decodable(bits[SlotOf(layout.comps[c], ac)], huffval[SlotOf(layout.comps[c], ac)], if ac then 255 else 15)
  }

  predicate SlotReady(layout: Layout, bits: seq<seq<nat>>, huffval: seq<seq<int>>, tables: seq<DTable>, c: nat, ac: bool)
    requires TablesSent(layout, bits, huffval) && c < |layout.comps| && |tables| == 2 * TABLES
  {
    var t := SlotOf(layout.comps[c], ac);
    tables[t].huffval == huffval[t] && Decodes(tables[t], bits[t], tables[t].huffval)
  }

  /** Derives the decoding tables of all components. */
  method StartPass(layout: Layout, bits: seq<seq<nat>>, huffval: seq<seq<int>>) returns (ok: bool, tables: seq<DTable>)
    requires TablesSent(layout, bits, huffval)
    ensures ok <==> forall c, ac :: 0 <= c < |layout.comps| ==> SlotDecodable(layout, bits, huffval, c, ac)
    ensures ok ==> |tables| == 2 * TABLES && forall c, ac :: 0 <= c < |layout.comps| ==> SlotReady(layout, bits, huffval, tables, c, ac)
  {
    hide Decodable, Decodes, WellShaped;
    tables := seq(2 * TABLES, _ => DTable([], [], [], []));
    for c := 0 to |layout.comps|
      invariant |tables| == 2 * TABLES
      invariant forall i, ac :: 0 <= i < c ==>
                  SlotDecodable(layout, bits, huffval, i, ac) && SlotReady(layout, bits, huffval, tables, i, ac)
    {
      var dctbl, actbl := SlotOf(layout.comps[c], false), SlotOf(layout.comps[c], true);
      var t;
      ok, t := MakeDecodingTable(bits[dctbl], huffval[dctbl], true);
      if !ok {
        assert !SlotDecodable(layout, bits, huffval, c, false);
        return;
      }
      TableHuffval(t, bits[dctbl], huffval[dctbl]);
      tables := tables[dctbl := t];
      ok, t := MakeDecodingTable(bits[actbl], huffval[actbl], false);
      if !ok {
        assert !SlotDecodable(layout, bits, huffval, c, true);
        return;
      }
      TableHuffval(t, bits[actbl], huffval[actbl]);
      tables := tables[actbl := t];
    }
    ok := true;
  }

  lemma {:induction false} TableHuffval(t: DTable, bits: seq<nat>, huffval: seq<int>)
    requires Decodes(t, bits, huffval)
    ensures t.huffval == huffval
  {
  }

  /** Decodes `n` MCUs of any stream; of an encoder's stream, the ones it was given. */
  method DecodeScan(layout: Layout, bits: seq<seq<nat>>, huffval: seq<seq<int>>, input: seq<Byte>, n: nat,
                    ghost known: bool, ghost codes: Codes, ghost mcus: seq<seq<Block>>, ghost raws0: seq<seq<Byte>>, ghost end: Byte)
      returns (ok: bool, decoded: seq<seq<seq<Coef>>>)
    requires TablesSent(layout, bits, huffval)
    requires known ==>
               && raws0 != [] && 0 < end < 255 && input == Stream(raws0, 0, end)
               && n == |mcus| && ValidMcus(layout, mcus)
               && ShapedCodes(codes) && bits == codes.bits && huffval == codes.huffval
               && SegmentsCarried(codes, Segments(layout, Start(layout), mcus), ByteBits(raws0[0]), raws0[1..])
    ensures ok <==> forall c, ac :: 0 <= c < |layout.comps| ==> SlotDecodable(layout, bits, huffval, c, ac)
    ensures ok ==> |decoded| == n && (known ==> decoded == mcus)
  {
    hide Decodes, Decodable, WellShaped, SegmentsCarried, Segments, Stream, ByteBits, Onward;
    decoded := [];
    var tables;
    ok, tables := StartPass(layout, bits, huffval);
    if !ok {
      return;
    }
    var decoder := new HuffDecoder(layout, bits, huffval, tables, input, known, raws0, end);
    AllReady(layout, bits, huffval, tables, decoder);
    ghost var raws := if known then raws0[1..] else raws0;
    assert known ==> mcus[0..] == mcus;
    hide HuffDecoder.Valid;
    for m := 0 to n
      invariant fresh(decoder) && fresh(decoder.reader) && decoder.layout == layout && decoder.Valid() && |decoded| == m
      invariant known ==> decoder.Follows(codes, mcus[m..], raws, end) && decoded == mcus[..m]
    {
      var mcu;
      mcu, raws := decoder.DecodeMcu(known, codes, if known then mcus[m..] else [], raws, end);
      assert known ==> mcus[m..][1..] == mcus[m + 1..];
      decoded := decoded + [mcu];
    }
  }

  lemma {:induction false} AllReady(layout: Layout, bits: seq<seq<nat>>, huffval: seq<seq<int>>, tables: seq<DTable>, decoder: HuffDecoder)
    requires TablesSent(layout, bits, huffval) && |tables| == 2 * TABLES
    requires forall c, ac :: 0 <= c < |layout.comps| ==> SlotReady(layout, bits, huffval, tables, c, ac)
    requires decoder.layout == layout && decoder.bits == bits && decoder.huffval == huffval && decoder.tables == tables
    requires |decoder.lastDcVal| == |layout.comps| && decoder.nextRestartNum < 8
    ensures decoder.Valid()
  {
    hide Decodes;
    forall c | 0 <= c < |layout.comps|
      ensures decoder.CompReady(layout.comps[c])
    {
      assert SlotReady(layout, bits, huffval, tables, c, false) && SlotReady(layout, bits, huffval, tables, c, true);
    }
  }

  /** Writes the segments, restart markers between them, and the marker behind the scan. */
  method WriteScan(puts: seq<seq<Put>>, end: Byte) returns (output: seq<Byte>, ghost raws: seq<seq<Byte>>)
    requires puts != [] && 0 < end < 255
    requires forall i, j :: 0 <= i < |puts| && 0 <= j < |puts[i]| ==> ValidPut(puts[i][j])
    ensures NoneLost(puts) ==> |raws| == |puts| && output == Stream(raws, 0, end)
    ensures NoneLost(puts) ==> forall i :: 0 <= i < |raws| ==> BitsPut(puts[i]) <= ByteBits(raws[i])
  {
    hide ValidPut, BitsPut, ByteBits, Stuff, Stream, EntropyEncoding.Joined, NothingLost, Packs;
    ghost var kept := NoneLost(puts);
    output, raws := [], [];
    NothingJoined();
    for i := 0 to |puts|
      invariant kept ==> |raws| == i && forall k :: 0 <= k < i ==> BitsPut(puts[k]) <= ByteBits(raws[k])
      invariant kept && i < |puts| ==> output == EntropyEncoding.Joined(raws)
      invariant kept && i == |puts| ==> output == Stream(raws, 0, end)
    {
      var segment, pending := WriteLazily(puts[i]);
      ghost var raw := [];
      if kept {
        raw := Unpacked(segment, BitsPut(puts[i]));
        EntropyEncoding.JoinedAppend(raws, raw);
        LastSegment(raws, raw, end);
      }
      output := output + segment + [0xFF as Byte] + [if i + 1 < |puts| then (0xD0 + i % 8) as Byte else end];
      assert kept ==> [0xFF as Byte] + [(0xD0 + i % 8) as Byte] == [0xFF, (0xD0 + i % 8) as Byte];
      raws := raws + [raw];
    }
  }

  /** No segment loses bits in its final flush. */
  predicate NoneLost(puts: seq<seq<Put>>) {
    forall i :: 0 <= i < |puts| ==> NothingLost(puts[i])
  }

  lemma {:induction false} NothingJoined()
    ensures EntropyEncoding.Joined([]) == []
  {
  }

  lemma {:induction false} Unpacked(output: seq<Byte>, bits: seq<Bit>) returns (raw: seq<Byte>)
    requires Packs(output, bits)
    ensures output == Stuff(raw) && bits <= ByteBits(raw)
  {
    raw :| output == Stuff(raw) && ByteBits(raw) == Padded(bits);
  }

  lemma {:induction false} LastSegment(raws: seq<seq<Byte>>, raw: seq<Byte>, end: Byte)
    requires 0 < end < 255
    ensures Stream(raws + [raw], 0, end) == EntropyEncoding.Joined(raws) + Stuff(raw) + [0xFF as Byte] + [end]
  {
    hide Stuff;
    var all := raws + [raw];
    StreamSplit(all, |raws|, end);
    assert all[..|raws|] == raws && all[|raws|..] == [raw];
    assert Stream([raw], |raws| % 8, end) == Stuff(raw) + [0xFF, end] == Stuff(raw) + [0xFF as Byte] + [end];
    assert EntropyEncoding.Joined(raws) + (Stuff(raw) + [0xFF as Byte] + [end]) == EntropyEncoding.Joined(raws) + Stuff(raw) + [0xFF as Byte] + [end];
  }

  lemma {:induction false} StreamSplit(raws: seq<seq<Byte>>, n: nat, end: Byte)
    requires n < |raws| && 0 < end < 255
    ensures Stream(raws, 0, end) == EntropyEncoding.Joined(raws[..n]) + Stream(raws[n..], n % 8, end)
  {
    hide Stuff, EntropyEncoding.Joined, Stream;
    if n == 0 {
      NothingJoined();
      assert raws[0..] == raws && raws[..0] == [];
    } else {
      StreamSplit(raws, n - 1, end);
      EntropyEncoding.JoinedAppend(raws[..n - 1], raws[n - 1]);
      assert raws[..n] == raws[..n - 1] + [raws[n - 1]];
      StreamNext(raws[n - 1..], (n - 1) % 8, end);
      assert raws[n - 1..][1..] == raws[n..];
      assert ((n - 1) % 8 + 1) % 8 == n % 8;
      var joined, first, mark, more := EntropyEncoding.Joined(raws[..n - 1]), Stuff(raws[n - 1]), [0xFF as Byte, (0xD0 + (n - 1) % 8) as Byte], Stream(raws[n..], n % 8, end);
      assert joined + (first + (mark + more)) == joined + first + mark + more;
    }
  }

  lemma {:induction false} StreamNext(raws: seq<seq<Byte>>, num: nat, end: Byte)
    requires |raws| > 1 && num < 8
    ensures Stream(raws, num, end) == Stuff(raws[0]) + ([0xFF as Byte, (0xD0 + num) as Byte] + Stream(raws[1..], (num + 1) % 8, end))
  {
    hide Stuff;
  }

  /** Every symbol of a scan can be sent with tables that code all symbols put. */
  lemma {:induction false} ScanSendable(layout: Layout, codes: Codes, mcus: seq<seq<Block>>, puts: seq<seq<Put>>)
    requires ValidLayout(layout) && ValidMcus(layout, mcus) && ScanInRange(layout, Start(layout), mcus)
    requires AllPuts(codes, Segments(layout, Start(layout), mcus), puts)
    requires forall i, j :: 0 <= i < |puts| && 0 <= j < |puts[i]| ==> ValidPut(puts[i][j])
    requires forall c, ac :: 0 <= c < |layout.comps| ==> SlotDerived(codes, SlotOf(layout.comps[c], ac))
    ensures forall i :: 0 <= i < |puts| ==> AllSendable(codes, Segments(layout, Start(layout), mcus)[i])
  {
    hide Segments, ScanInRange, ScanEmits, SlotDerived;
    var segments := Segments(layout, Start(layout), mcus);
    ScanExpected(layout, Start(layout), mcus);
    SegmentsAreScan(layout, Start(layout), mcus);
    forall i, j | 0 <= i < |puts| && 0 <= j < |segments[i]|
      ensures Sendable(codes, segments[i][j])
    {
      var e := segments[i][j];
      SegmentMember(segments, i, j);
      assert Expected(layout, e);
      var c :| 0 <= c < |layout.comps| && e.tbl == if e.ac then layout.comps[c].acTbl else layout.comps[c].dcTbl;
      assert SlotDerived(codes, SlotOf(layout.comps[c], e.ac));
      assert Puts(codes, segments[i], puts[i]) && ValidPut(puts[i][j]);
    }
  }

  /** The bytes written carry the scan. */
  lemma {:induction false} ScanCarried(layout: Layout, codes: Codes, mcus: seq<seq<Block>>, puts: seq<seq<Put>>, raws: seq<seq<Byte>>)
    requires ValidLayout(layout) && ValidMcus(layout, mcus) && ShapedCodes(codes)
    requires AllPuts(codes, Segments(layout, Start(layout), mcus), puts) && |raws| == |puts|
    requires forall i :: 0 <= i < |puts| ==> AllSendable(codes, Segments(layout, Start(layout), mcus)[i])
    requires forall i :: 0 <= i < |puts| ==> BitsPut(puts[i]) <= ByteBits(raws[i])
    ensures raws != [] && SegmentsCarried(codes, Segments(layout, Start(layout), mcus), ByteBits(raws[0]), raws[1..])
  {
    hide Segments, ByteBits, EmitBits, BitsPut, AllSendable, Puts;
    var segments := Segments(layout, Start(layout), mcus);
    forall i | 0 <= i < |raws|
      ensures Carried(codes, segments[i], ByteBits(raws[i]))
    {
      PutsAreBits(codes, segments[i], puts[i]);
    }
  }

  /** The tables of an encoder are accepted. */
  lemma {:induction false} SentTablesDecodable(layout: Layout, codes: Codes)
    requires ValidLayout(layout) && ShapedCodes(codes)
    requires forall c, ac :: 0 <= c < |layout.comps| ==> SlotDerived(codes, SlotOf(layout.comps[c], ac))
    ensures TablesSent(layout, codes.bits, codes.huffval)
    ensures forall c, ac :: 0 <= c < |layout.comps| ==> SlotDecodable(layout, codes.bits, codes.huffval, c, ac)
  {
    hide WellShaped, Derived, Space, Sizes;
    forall c, ac | 0 <= c < |layout.comps|
      ensures WellShaped(codes.bits[SlotOf(layout.comps[c], ac)], codes.huffval[SlotOf(layout.comps[c], ac)])
      ensures Decodable(codes.bits[SlotOf(layout.comps[c], ac)], codes.huffval[SlotOf(layout.comps[c], ac)], if ac then 255 else 15)
    {
      var t := SlotOf(layout.comps[c], ac);
      assert SlotDerived(codes, t);
      LegalDecodable(codes.bits[t], codes.huffval[t], if ac then 255 else 15);
    }
  }

  lemma {:induction false} LegalDecodable(bits: seq<nat>, huffval: seq<int>, max: int)
    requires WellShaped(bits, huffval) && Legal(bits, huffval, max)
    ensures Decodable(bits, huffval, max)
  {
    hide Space, Sizes;
    SizesOrdered(bits, LONGEST);
    var list := huffval[..|Sizes(bits, LONGEST)|];
    assert forall i :: 0 <= i < |list| ==> list[i] == huffval[i];
  }

  /** The main result: optimal tables are built, the scan is written with them in restart
      intervals, and a decoder that has the tables' lengths and symbols only reads back the
      same blocks, provided no segment loses bits in its final flush; none does with at most
      57 bits waiting. */
  method HuffmanRoundTrip(layout: Layout, mcus: seq<seq<Block>>, end: Byte)
    returns (ok: bool, codes: Codes, puts: seq<seq<Put>>, decoded: seq<seq<seq<Coef>>>)
    requires ValidLayout(layout) && ValidMcus(layout, mcus) && mcus != [] && 0 < end < 255
    requires forall c :: 0 <= c < |layout.comps| ==> HasBlock(layout, c)
    requires |ScanEmits(layout, Start(layout), mcus)| + 1 <= MAX_FREQ
    ensures ok ==> ScanInRange(layout, Start(layout), mcus)
    ensures ScanInRange(layout, Start(layout), mcus) && |ScanEmits(layout, Start(layout), mcus)| + 1 < 9227465 ==> ok
    ensures ok ==> AllPuts(codes, Segments(layout, Start(layout), mcus), puts)
    ensures ok ==> ShapedCodes(codes) && forall i, j :: 0 <= i < |puts| && 0 <= j < |puts[i]| ==> ValidPut(puts[i][j])
    ensures ok ==> OptimalTables(layout, mcus, codes)
    ensures ok && NoneLost(puts) ==> decoded == mcus
    ensures ok && (forall i :: 0 <= i < |puts| ==> Waiting(puts[i]) <= FLUSHABLE) ==> decoded == mcus
  {
    hide Segments, ScanInRange, ScanEmits, SlotDerived, SegmentsCarried, TablesSent, SlotDecodable, AllSendable, AllPuts, Stream,
         ValidPut, BitsPut, ByteBits, NoneLost, OptimalTables;
    decoded := [];
    ok, codes, puts := EncodeOptimally(layout, mcus);
    if !ok {
      return;
    }
    PutsShape(codes, Segments(layout, Start(layout), mcus), puts);
    ScanSendable(layout, codes, mcus, puts);
    var output;
    ghost var raws;
    output, raws := WriteScan(puts, end);
    ghost var kept := NoneLost(puts);
    RoomMeansNoneLost(puts);
    if kept {
      ScanCarried(layout, codes, mcus, puts, raws);
    }
    SentTablesDecodable(layout, codes);
    var accepted;
    accepted, decoded := DecodeScan(layout, codes.bits, codes.huffval, output, |mcus|, kept, codes, mcus, raws, end);
  }

  lemma {:induction false} RoomMeansNoneLost(puts: seq<seq<Put>>)
    ensures (forall i :: 0 <= i < |puts| ==> Waiting(puts[i]) <= FLUSHABLE) ==> NoneLost(puts)
  {
    hide NothingLost, Waiting;
    if forall i :: 0 <= i < |puts| ==> Waiting(puts[i]) <= FLUSHABLE {
      forall i | 0 <= i < |puts|
        ensures NothingLost(puts[i])
      {
        RoomForAll(puts[i]);
      }
    }
  }

  lemma {:induction false} PutsShape(codes: Codes, segments: seq<seq<Emit>>, puts: seq<seq<Put>>)
    requires segments != [] && AllPuts(codes, segments, puts)
    ensures puts != [] && ShapedCodes(codes)
  {
    assert Puts(codes, segments[0], puts[0]);
  }
}
