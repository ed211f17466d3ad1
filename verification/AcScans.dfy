/** Progressive AC scans from coefficients to bytes and back: gathering, the optimal table,
    the bit writer, and the decoder with the table that was sent. */
module AcScans {
  import opened Shifts
  import opened ProbabilityTable
  import opened ByteCode
  import opened BitStrings
  import opened BitPacking
  import opened CodeLengths
  import opened Frequencies
  import opened OptimalTable
  import opened DerivedTable
  import opened DecodingTable
  import HuffmanTables
  import BitWriters
  import HuffmanDecoding
  import opened Binarisation
  import opened EobRuns
  import opened ProgressiveAc
  import opened AcBits
  import opened AcRefineDecoding
  import opened AcFirstDecoding

  const LARGEST := 250

  // ----- the symbols of a scan

  predicate Below(item: Item) {
    item.Symbol? ==> item.s <= LARGEST
  }

  predicate AllBelow(items: seq<Item>) {
    forall i :: 0 <= i < |items| ==> Below(items[i])
  }

  /** Nothing, or a symbol first. */
  predicate StartsWell(items: seq<Item>) {
    items == [] || items[0].Symbol?
  }

  predicate GoodCode(code: BlockCode) {
    AllBelow(code.prefix) && StartsWell(code.prefix)
  }

  lemma {:induction false} BelowConcat(a: seq<Item>, b: seq<Item>)
    requires AllBelow(a) && AllBelow(b)
    ensures AllBelow(a + b)
  {
  }

  lemma {:induction false} RawsBelow(bits: seq<Bit>)
    ensures AllBelow(Raws(bits))
  {
  }

  lemma {:induction false} ZrlsBelow(r: nat)
    ensures AllBelow(Zrls(r)) && StartsWell(Zrls(r))
  {
    if r > 15 {
      ZrlsBelow(r - 16);
    }
  }

  lemma {:induction false} CoefBelow(v: nat, negative: bool, r: nat)
    requires BitLength(v) <= MAX_COEF_BITS
    ensures AllBelow(CoefItems(v, negative, r)) && CoefItems(v, negative, r) != [] && StartsWell(CoefItems(v, negative, r))
  {
    hide BitLength, ValueBits;
    ZrlsBelow(r);
    RawsBelow(ValueBits(v, negative));
    var symbol := [Symbol(16 * (r % 16) + BitLength(v))];
    assert AllBelow(symbol);
    BelowConcat(Zrls(r), symbol);
    BelowConcat(Zrls(r) + symbol, Raws(ValueBits(v, negative)));
  }

  lemma {:induction false} FirstGood(vals: seq<nat>, negative: seq<bool>, k: nat, r: nat)
    requires k <= |vals| == |negative| && SmallVals(vals)
    ensures GoodCode(FirstFrom(vals, negative, k, r))
    decreases |vals| - k
  {
    if k < |vals| {
      FirstStep(vals, negative, k, r);
      hide FirstFrom, CoefItems, BitLength, GoodCode, AllBelow, StartsWell;
      FirstGood(vals, negative, k + 1, if vals[k] == 0 then r + 1 else 0);
      if vals[k] != 0 {
        CoefBelow(vals[k], negative[k], r);
        PrependGood(CoefItems(vals[k], negative[k], r), FirstFrom(vals, negative, k + 1, 0));
      }
    }
  }

  lemma {:induction false} RefineZrlsBelow(r: nat, bits: seq<Bit>)
    ensures AllBelow(RefineZrls(r, bits)) && StartsWell(RefineZrls(r, bits))
  {
    if r > 15 {
      RefineZrlsBelow(r - 16, []);
      RawsBelow(bits);
      BelowConcat([Symbol(ZRL)], Raws(bits));
      BelowConcat([Symbol(ZRL)] + Raws(bits), RefineZrls(r - 16, []));
    }
  }

  lemma {:induction false} RefineItemsBelow(v: nat, negative: bool, fold: bool, r: nat, bits: seq<Bit>)
    requires v <= 1 && !fold ==> r <= 15
    ensures AllBelow(RefineItems(v, negative, fold, r, bits)) && StartsWell(RefineItems(v, negative, fold, r, bits))
  {
    hide RefineZrls;
    var zrls := if fold then RefineZrls(r, bits) else [];
    RefineZrlsBelow(r, bits);
    if v <= 1 {
      var more := [Symbol(16 * (if fold then r % 16 else r) + 1), Raw(if negative then 0 else 1)];
      assert AllBelow(more);
      RawsBelow(if fold then [] else bits);
      BelowConcat(zrls, more);
      BelowConcat(zrls + more, Raws(if fold then [] else bits));
    }
  }

  lemma {:induction false} RefineGood(vals: seq<nat>, negative: seq<bool>, last: nat, k: nat, r: nat, bits: seq<Bit>)
    requires k <= |vals| == |negative| && forall i :: last < i < |vals| ==> vals[i] != 1
    ensures GoodCode(EobRuns.RefineFrom(vals, negative, last, k, r, bits))
    decreases |vals| - k
  {
    if k < |vals| {
      var fold := r > 15 && k <= last;
      RefineStep(vals, negative, last, k, r, bits);
      hide EobRuns.RefineFrom, RefineItems, GoodCode, AllBelow, StartsWell, Prepend;
      if vals[k] == 0 {
        RefineGood(vals, negative, last, k + 1, r + 1, bits);
      } else {
        var items := RefineItems(vals[k], negative[k], fold, r, bits);
        RefineItemsBelow(vals[k], negative[k], fold, r, bits);
        if vals[k] > 1 {
          var left, waiting := if fold then r % 16 else r, (if fold then [] else bits) + [vals[k] % 2];
          RefineGood(vals, negative, last, k + 1, left, waiting);
          PrependGood(items, EobRuns.RefineFrom(vals, negative, last, k + 1, left, waiting));
        } else {
          RefineGood(vals, negative, last, k + 1, 0, []);
          PrependGood(items, EobRuns.RefineFrom(vals, negative, last, k + 1, 0, []));
        }
      }
    }
  }

  lemma {:induction false} PrependGood(items: seq<Item>, code: BlockCode)
    requires AllBelow(items) && StartsWell(items) && GoodCode(code)
    ensures GoodCode(Prepend(items, code))
  {
    hide Below;
    BelowConcat(items, code.prefix);
    assert items == [] ==> items + code.prefix == code.prefix;
  }

  lemma {:induction false} EobBelow(n: nat)
    requires 0 < n <= MAX_EOBRUN
    ensures AllBelow(EobCode(n)) && |EobCode(n)| > 0 && EobCode(n)[0].Symbol?
  {
    RunLength(n);
    hide BitLength, BitsOf;
    RawsBelow(BitsOf(n, BitLength(n) - 1));
  }

  lemma {:induction false} GroupBelow(group: Group)
    requires ValidGroup(group) && forall i :: 0 <= i < |Codes(group)| ==> ValidCode(Codes(group)[i]) && GoodCode(Codes(group)[i])
    ensures AllBelow(GroupItems(group)) && GroupItems(group) != [] && GroupItems(group)[0].Symbol?
  {
    hide EobCode, TailBits;
    match group
    case Single(code) =>
      assert Codes(group)[0] == code;
    case Run(codes) =>
      assert Codes(group)[0] == codes[0];
      EobBelow(|codes|);
      RawsBelow(TailBits(codes));
      BelowConcat(codes[0].prefix, EobCode(|codes|));
      BelowConcat(codes[0].prefix + EobCode(|codes|), Raws(TailBits(codes)));
  }

  lemma {:induction false} GroupsBelow(groups: seq<Group>)
    requires forall i :: 0 <= i < |groups| ==> ValidGroup(groups[i])
    requires forall i :: 0 <= i < |AllCodes(groups)| ==> ValidCode(AllCodes(groups)[i]) && GoodCode(AllCodes(groups)[i])
    ensures AllBelow(AllItems(groups)) && (groups != [] ==> AllItems(groups) != [] && AllItems(groups)[0].Symbol?)
  {
    hide GroupItems, ValidCode, GoodCode;
    if groups != [] {
      var n := |groups| - 1;
      var before, codes := AllCodes(groups[..n]), Codes(groups[n]);
      assert AllCodes(groups) == before + codes;
      assert forall i :: 0 <= i < |before| ==> AllCodes(groups)[i] == before[i];
      assert forall i :: 0 <= i < |codes| ==> AllCodes(groups)[|before| + i] == codes[i];
      GroupsBelow(groups[..n]);
      assert ValidGroup(groups[n]);
      GroupBelow(groups[n]);
      BelowConcat(AllItems(groups[..n]), GroupItems(groups[n]));
    }
  }

  /** What the table of a scan is for: its symbols are in range, and there is one. */
  lemma {:induction false} ScanBelow(codes: seq<BlockCode>)
    requires codes != [] && forall i :: 0 <= i < |codes| ==> ValidCode(codes[i]) && GoodCode(codes[i])
    ensures AllBelow(ScanItems(codes)) && ScanItems(codes) != [] && ScanItems(codes)[0].Symbol?
  {
    hide ScanItems, Added, GoodCode, ValidCode, GroupItems;
    ScanItemsAreGroups(codes);
    var groups := Flushed(AddedAll(codes)).groups;
    assert groups == [] ==> AllCodes(groups) == [];
    GroupsBelow(groups);
  }

  // ----- the table

  predicate Counts(counts: seq<int>, items: seq<Item>) {
    |counts| == PSEUDO && forall s :: 0 <= s < PSEUDO ==> counts[s] == CountOf(items, s)
  }

  function Histogram(items: seq<Item>): (counts: seq<int>)
    ensures Counts(counts, items)
  {
    seq(PSEUDO, s requires 0 <= s < PSEUDO => CountOf(items, s))
  }

  lemma {:induction false} CountsInAll(items: seq<Item>)
    ensures 0 <= Sum(Histogram(items)) <= |items|
  {
    hide Sum;
    if items == [] {
      SumZero(Histogram(items));
    } else {
      var n := |items| - 1;
      var before := items[..n];
      CountsInAll(before);
      CountAppend(before, items[n]);
      assert items == before + [items[n]];
      if items[n].Symbol? && items[n].s < PSEUDO {
        var s := items[n].s;
        SumUpdate(Histogram(before), s, Histogram(before)[s] + 1);
        assert Histogram(items) == Histogram(before)[s := Histogram(before)[s] + 1];
      } else {
        assert Histogram(items) == Histogram(before);
      }
    }
  }

  lemma {:induction false} CountedSymbol(items: seq<Item>, s: nat)
    ensures CountOf(items, s) > 0 <==> Symbol(s) in items
  {
    if items != [] {
      CountedSymbol(items[..|items| - 1], s);
      assert items == items[..|items| - 1] + [items[|items| - 1]];
    }
  }

  /** The counts of a scan are a histogram the table builder accepts. */
  lemma {:induction false} Buildable(counts: seq<int>, items: seq<Item>)
    requires |counts| == SYMBOLS && Counts(counts[..PSEUDO], items) && counts[PSEUDO] == 0
    requires AllBelow(items) && items != [] && items[0].Symbol? && |items| + 1 <= MAX_FREQ
    ensures HuffmanTables.Histogram(counts) && Sum(counts[..PSEUDO]) <= |items|
  {
    hide Sum, CountOf;
    CountsInAll(items);
    assert counts[..PSEUDO] == Histogram(items);
    assert forall s :: 0 <= s < PSEUDO ==> counts[s] == counts[..PSEUDO][s];
    CountedSymbol(items, items[0].s);
    assert Below(items[0]);
    var occurring := HuffmanTables.Occurring(counts);
    assert items[0].s in occurring;
    forall s | s in occurring
      ensures 0 <= s < LARGEST + 1
    {
      CountedSymbol(items, s);
      var i :| 0 <= i < |items| && items[i] == Symbol(s);
      assert Below(items[i]);
    }
    RangeBounds(LARGEST + 1, occurring);
  }

  /** The optimal table for a scan's items; it is built unless there are very many. */
  method BuildTable(counts: seq<nat>, ghost items: seq<Item>) returns (ok: bool, table: Table)
    requires |counts| == PSEUDO && forall s :: 0 <= s < PSEUDO ==> counts[s] == CountOf(items, s)
    requires AllBelow(items) && items != [] && items[0].Symbol? && |items| + 1 <= MAX_FREQ
    ensures |items| + 1 < 9227465 ==> ok
    ensures ok ==> ValidTable(table) && AllCoded(table, items)
    ensures ok ==> exists tree :: HuffmanTables.OptimalFor(counts + [0], tree, table.size, table.bits, table.huffval)
  {
    hide HuffmanTables.Histogram, HuffmanTables.OptimalFor, Sum, CountOf, Legal, Derived, CodeWord, WellShaped;
    var freq := new int[SYMBOLS](i => if 0 <= i < |counts| then counts[i] else 0);
    assert freq[..][..PSEUDO] == counts;
    assert freq[..PSEUDO] == counts;
    assert freq[..] == counts + [0];
    Buildable(freq[..], items);
    var code, size, bits, huffval;
    ok, code, size, bits, huffval := HuffmanTables.OptimalCodes(freq, false);
    table := Table(code, size, bits, huffval);
    if ok {
      forall i | 0 <= i < |items|
        ensures AcBits.Coded(table, items[i])
      {
        if items[i].Symbol? {
          assert Below(items[i]);
          CountedSymbol(items, items[i].s);
        }
      }
    }
  }

  // ----- the bytes

  /** Every item through the bit writer. */
  method WriteItems(items: seq<Item>, table: Table) returns (output: seq<Byte>)
    requires ValidTable(table) && AllCoded(table, items)
    ensures Packs(output, ItemBits(table, items))
  {
    hide *;
    NoItems(table);
    var writer := new BitWriters.EagerWriter();
    for i := 0 to |items|
      invariant fresh(writer) && writer.Valid() && ItemBitsOf(table, items[..i]) == writer.bits
    {
      NextItem(table, items, i);
      WriteItem(writer, table, items[i]);
    }
    assert items[..|items|] == items;
    writer.FlushBits();
    output := writer.output;
    AllItemBits(table, items);
  }

  ghost function ItemBitsOf(table: Table, items: seq<Item>): seq<Bit> {
    if |table.code| == |table.size| == 256 && AllCoded(table, items) then ItemBits(table, items) else []
  }

  lemma {:induction false} AllItemBits(table: Table, items: seq<Item>)
    requires ValidTable(table) && AllCoded(table, items)
    ensures ItemBitsOf(table, items) == ItemBits(table, items)
  {
  }

  lemma {:induction false} NextItem(table: Table, items: seq<Item>, i: nat)
    requires ValidTable(table) && AllCoded(table, items) && i < |items|
    ensures AcBits.Coded(table, items[i])
    ensures ItemBitsOf(table, items[..i + 1]) == ItemBitsOf(table, items[..i]) + OneItem(table, items[i])
  {
    hide ItemBits, OneItem;
    assert items[..i + 1] == items[..i] + [items[i]];
    ItemBitsAppend(table, items[..i], items[i]);
  }

  method WriteItem(writer: BitWriters.EagerWriter, table: Table, item: Item)
    requires writer.Valid() && ValidTable(table) && AcBits.Coded(table, item)
    modifies writer
    ensures writer.Valid() && writer.bits == old(writer.bits) + OneItem(table, item)
  {
    hide Packs, BitsOf, Pow2, Legal, Derived, WellShaped, BitWriters.EagerWriter.Valid;
    var ok;
    match item
    case Symbol(s) =>
      WordFits(table, s);
      ok := writer.EmitBits(table.code[s], table.size[s]);
    case Raw(bit) =>
      OneBit(bit);
      ok := writer.EmitBits(bit, 1);
  }

  lemma {:induction false} NoItems(table: Table)
    requires ValidTable(table)
    ensures ItemBitsOf(table, []) == []
  {
  }

  lemma {:induction false} WordFits(table: Table, s: nat)
    requires ValidTable(table) && s < 256 && table.size[s] > 0
    ensures table.size[s] <= 16
    ensures OneItem(table, Symbol(s)) == BitsOf(table.code[s] % Pow2(table.size[s]), table.size[s])
  {
    PrefixFree(table.bits, table.huffval, 255, table.code, table.size, s, s);
    hide Pow2, BitsOf;
    BitWriters.Remainder(table.code[s], Pow2(table.size[s]));
  }

  lemma {:induction false} OneBit(bit: Bit)
    ensures BitsOf(bit % Pow2(1), 1) == [bit]
  {
    Pow2Small();
    assert BitsOf(bit / 2, 0) == [];
  }

  /** What the decoder is given: the bits up to the marker, and the table. */
  method ReadBack(output: seq<Byte>, table: Table, end: Byte, ghost items: seq<Item>) returns (input: seq<Bit>, decoding: DTable)
    requires ValidTable(table) && AllCoded(table, items) && Packs(output, ItemBits(table, items)) && 0 < end < 255
    ensures Decodes(decoding, table.bits, decoding.huffval) && ScanHeld(decoding, table.bits, input, table, items)
  {
    hide Decodes, ItemBits, ByteBits, Stuff, Legal, Derived, Decodable, WellShaped, AllCoded, Packs;
    ghost var raw := HuffmanDecoding.Unpacked(output, ItemBits(table, items));
    OneSegment(raw, end);
    var data, marker, rest := HuffmanDecoding.ReadSegment(output + [0xFF as Byte, end], true, [raw], 0, end);
    input := ByteBits(data);
    HuffmanDecoding.LegalDecodable(table.bits, table.huffval, 255);
    var ok;
    ok, decoding := MakeDecodingTable(table.bits, table.huffval, false);
    HuffmanDecoding.TableHuffval(decoding, table.bits, table.huffval);
  }

  lemma {:induction false} OneSegment(raw: seq<Byte>, end: Byte)
    requires 0 < end < 255
    ensures HuffmanDecoding.Stream([raw], 0, end) == Stuff(raw) + [0xFF as Byte, end]
  {
  }

  // ----- whole scans

  /** A refinement scan: gathered, its table built, written, and read back with the table
      that was sent. A decoder that holds every coefficient at the coarser precision ends
      with all of them at the finer one. */
  method RefineScanRoundTrip(targets: seq<seq<Coef>>, prior: seq<seq<Coef>>, al: nat, end: Byte)
    returns (ok: bool, blocks: seq<seq<Coef>>)
    requires targets != [] && ValidTargets(targets) && BlocksAtPrecision(prior, targets, al + 1) && 0 < end < 255
    requires |RefineItemsOf(targets, al)| + 1 <= MAX_FREQ
    ensures |RefineItemsOf(targets, al)| + 1 < 9227465 ==> ok
    ensures ok ==> BlocksAtPrecision(blocks, targets, al)
  {
    hide ScanItems, CodesOf, CountOf, ValidTable, AllCoded, Packs, ItemBits, Decodes, BlocksAtPrecision, ScanHeld, AllBelow;
    ghost var items := RefineItemsOf(targets, al);
    RefineItemsBuildable(targets, al);
    var bands := BandsOf(targets, al);
    var none, counts := RefineScan(bands, true);
    blocks := [];
    var table;
    ok, table := BuildTable(counts, items);
    if !ok {
      return;
    }
    var output, unused := RefineScan(bands, false);
    var bytes := WriteItems(output, table);
    var input, decoding := ReadBack(bytes, table, end, items);
    ok, blocks := DecodeRefineScan(prior, al, decoding, table.bits, input, true, table, targets);
  }

  ghost function RefineItemsOf(targets: seq<seq<Coef>>, al: nat): seq<Item>
    requires ValidTargets(targets)
  {
    ScanItems(CodesOf(BandsOf(targets, al)))
  }

  lemma {:induction false} RefineItemsBuildable(targets: seq<seq<Coef>>, al: nat)
    requires targets != [] && ValidTargets(targets)
    ensures AllBelow(RefineItemsOf(targets, al)) && RefineItemsOf(targets, al) != [] && RefineItemsOf(targets, al)[0].Symbol?
  {
    hide ScanItems, AllBelow, GoodCode, EobRuns.RefineFrom;
    var bands := BandsOf(targets, al);
    var codes := CodesOf(bands);
    forall i | 0 <= i < |codes|
      ensures GoodCode(codes[i])
    {
      RefineGood(bands[i].vals, bands[i].negative, LastNew(bands[i].vals, |bands[i].vals|), 0, 0, []);
    }
    ScanBelow(codes);
  }

  ghost function FirstItemsOf(targets: seq<seq<Coef>>, al: nat): seq<Item>
    requires ValidTargets(targets)
  {
    ScanItems(FirstCodes(BandsOf(targets, al)))
  }

  lemma {:induction false} FirstItemsBuildable(targets: seq<seq<Coef>>, al: nat)
    requires targets != [] && ValidTargets(targets) && forall i :: 0 <= i < |targets| ==> SmallVals(Magnitudes(targets[i], al))
    ensures AllBelow(FirstItemsOf(targets, al)) && FirstItemsOf(targets, al) != [] && FirstItemsOf(targets, al)[0].Symbol?
  {
    hide ScanItems, AllBelow, GoodCode, FirstFrom, SmallVals;
    var bands := BandsOf(targets, al);
    var codes := FirstCodes(bands);
    forall i | 0 <= i < |codes|
      ensures GoodCode(codes[i])
    {
      FirstGood(bands[i].vals, bands[i].negative, 0, 0);
    }
    ScanBelow(codes);
  }

  /** A first scan, in the same way: it is refused exactly if some magnitude has more than
      ten bits, short of Fibonacci(35) items. */
  method FirstScanRoundTrip(targets: seq<seq<Coef>>, al: nat, end: Byte) returns (ok: bool, blocks: seq<seq<Coef>>)
    requires targets != [] && ValidTargets(targets) && 0 < end < 255 && |FirstItemsOf(targets, al)| + 1 <= MAX_FREQ
    ensures ok ==> forall i :: 0 <= i < |targets| ==> SmallVals(Magnitudes(targets[i], al))
    ensures (forall i :: 0 <= i < |targets| ==> SmallVals(Magnitudes(targets[i], al))) && |FirstItemsOf(targets, al)| + 1 < 9227465 ==> ok
    ensures ok ==> BlocksAtPrecision(blocks, targets, al)
  {
    hide ScanItems, FirstCodes, CountOf, ValidTable, AllCoded, Packs, ItemBits, Decodes, BlocksAtPrecision, ScanHeld, AllBelow, SmallVals,
         Magnitudes, Signs;
    ghost var items := FirstItemsOf(targets, al);
    var bands := BandsOf(targets, al);
    assert forall i :: 0 <= i < |targets| ==> bands[i].vals == Magnitudes(targets[i], al);
    blocks := [];
    var none, counts;
    ok, none, counts := FirstScan(bands, true);
    if !ok {
      return;
    }
    FirstItemsBuildable(targets, al);
    var table;
    ok, table := BuildTable(counts, items);
    if !ok {
      return;
    }
    var output, unused;
    ok, output, unused := FirstScan(bands, false);
    var bytes := WriteItems(output, table);
    var input, decoding := ReadBack(bytes, table, end, items);
    ok, blocks := DecodeFirstScan(seq(|targets|, i requires 0 <= i < |targets| => |targets[i]|), al, decoding, table.bits, input, true, table, targets);
  }

  /** Few enough items in every scan for its table to be certain. */
  ghost predicate FewItems(targets: seq<seq<Coef>>, al: nat)
    requires ValidTargets(targets)
  {
    && |FirstItemsOf(targets, al)| + 1 < 9227465
    && forall p: nat :: p < al ==> |RefineItemsOf(targets, p)| + 1 < 9227465
  }

  /** All scans of a band: a first one at precision `al`, and a refinement for every bit
      below it, each from coefficients to bytes and back. If the first is accepted, the
      decoder ends with the very coefficients. */
  method SuccessiveScans(targets: seq<seq<Coef>>, al: nat, end: Byte) returns (ok: bool, blocks: seq<seq<Coef>>)
    requires targets != [] && ValidTargets(targets) && FewItems(targets, al) && 0 < end < 255
    ensures ok <==> forall i :: 0 <= i < |targets| ==> SmallVals(Magnitudes(targets[i], al))
    ensures ok ==> blocks == targets
  {
    hide SmallVals, Magnitudes, BlocksAtPrecision, FirstItemsOf, RefineItemsOf;
    ok, blocks := FirstScanRoundTrip(targets, al, end);
    if ok {
      var precision: nat := al;
      while precision > 0
        invariant precision <= al && BlocksAtPrecision(blocks, targets, precision)
      {
        precision := precision - 1;
        var refined;
        refined, blocks := RefineScanRoundTrip(targets, blocks, precision, end);
      }
      ExactAtZero(blocks, targets, precision);
    }
  }

  lemma {:induction false} ExactAtZero(blocks: seq<seq<Coef>>, targets: seq<seq<Coef>>, al: nat)
    requires al == 0 && BlocksAtPrecision(blocks, targets, al)
    ensures blocks == targets
  {
    forall i | 0 <= i < |targets|
      ensures blocks[i] == targets[i]
    {
      assert AtPrecision(blocks[i], targets[i], al, 0, |blocks[i]|);
      forall k | 0 <= k < |targets[i]|
        ensures blocks[i][k] == targets[i][k]
      {
        ApproxAtZero(targets[i][k], al);
      }
    }
  }

  lemma {:induction false} ApproxAtZero(x: Coef, al: nat)
    requires al == 0
    ensures ApproxAc(x, al) == x
  {
    assert Pow2(al) == 1;
  }
}
